/** Replaying an event log: the callback state machine that recomputes the PCRs. */
module Replay {
  import opened Words
  import opened EventLog

  type Digest = d: seq<Byte> | |d| == 32 witness Zeros(32)

  const ZERO: Digest := Zeros(32)

  /** SHA-256, of which only the result size is used. */
  type Hash = seq<Byte> -> Digest

  const EV_IPL: UInt32 := 0xD

  /** An initial value reported for a PCR. */
  datatype Init = Init(pcr: UInt32, locality: Byte)

  type Bank = b: seq<Digest> | |b| == 24 witness seq<Digest>(24, _ => ZERO)

  /** What the callbacks keep: the statics of eventcb.c, the recomputed PCRs and the reported values. */
  datatype State = State(active: UInt32, pending: bool, pcrs: Bank, inits: seq<Init>)

  function Fresh(): State {
    State(0, false, seq<Digest>(24, _ => ZERO), [])
  }

  /** event_initval_cb. */
  function InitvalCb(st: State, locality: Byte, pcr: UInt32): State {
    st.(active := pcr, inits := st.inits + [Init(pcr, locality)])
  }

  /** event2_header_cb. */
  function HeaderCb(st: State, pcr: UInt32, kind: UInt32): State {
    st.(active := pcr, pending := st.pending || kind == EV_NO_ACTION)
  }

  datatype Outcome = Outcome(ok: bool, st: State)

  /** event_digest_cb. */
  function DigestCb(h: Hash, st: State, d: Digest2): Outcome {
    if st.pending then Outcome(true, st.(pending := false))
    else if st.active >= 24 then Outcome(false, st)
    else if d.alg == SHA256 then
      Outcome(true, st.(pcrs := st.pcrs[st.active := h(st.pcrs[st.active] + d.bytes)]))
    else Outcome(true, st)
  }

  /** foreach_digest2 with the digest callback. */
  function DigestPass(h: Hash, st: State, s: seq<Byte>, count: nat, size: nat): Outcome
    requires size <= |s|
    decreases count
  {
    if count == 0 then Outcome(true, st)
    else if size < 2 then Outcome(false, st)
    else
      var n := 2 + HashSize(ReadU16(s, 0));
      if size < n then Outcome(false, st)
      else
        var o := DigestCb(h, st, Digest2(ReadU16(s, 0), s[2..n]));
        if !o.ok then o else DigestPass(h, o.st, s[n..], count - 1, size - n)
  }

  /** The digest callback on a list of digests. */
  function DigestCbs(h: Hash, st: State, ds: seq<Digest2>): Outcome
    decreases |ds|
  {
    if ds == [] then Outcome(true, st)
    else
      var o := DigestCb(h, st, ds[0]);
      if !o.ok then o else DigestCbs(h, o.st, ds[1..])
  }

  /** The variables that foreach_event2 carries from event to event. */
  datatype Reader = Reader(hcrtm: bool, seen: set<UInt32>, locality: Byte)

  function Signature(): (s: seq<Byte>)
    ensures |s| == 16
  {
    [0x53, 0x74, 0x61, 0x72, 0x74, 0x75, 0x70, 0x4C, 0x6F, 0x63, 0x61, 0x6C, 0x69, 0x74, 0x79, 0]
  }

  predicate IsHcrtm(e: Event) { e.kind == EV_EFI_HCRTM_EVENT && e.pcr == 0 }

  /** An EV_NO_ACTION event that is examined for the startup locality. */
  predicate MayStart(hcrtm: bool, e: Event) { !hcrtm && e.kind == EV_NO_ACTION && e.pcr == 0 }

  /** The locality that an event sets. `memory` begins with the event data and goes on behind it. */
  function LocalitySet(hcrtm: bool, e: Event, memory: seq<Byte>): Option<Byte>
    requires |memory| >= 17
  {
    if IsHcrtm(e) then Some(4)
    else if MayStart(hcrtm, e) && memory[..16] == Signature() then Some(memory[16])
    else None
  }

  function SetLocality(bank: Bank, locality: Byte): Bank {
    bank[0 := bank[0][31 := locality]]
  }

  /** The statements of foreach_event2 before the callbacks. */
  function Enter(r: Reader, e: Event, memory: seq<Byte>): Reader
    requires |memory| >= 17
  {
    var l := LocalitySet(r.hcrtm, e, memory);
    var locality := if l.Some? then l.value else r.locality;
    Reader(r.hcrtm || IsHcrtm(e), r.seen + {e.pcr}, if e.pcr !in r.seen && e.pcr != 0 then 0 else locality)
  }

  function EnterState(r: Reader, st: State, e: Event, memory: seq<Byte>): State
    requires |memory| >= 17
  {
    var l := LocalitySet(r.hcrtm, e, memory);
    var st1 := if l.Some? then st.(pcrs := SetLocality(st.pcrs, l.value)) else st;
    if e.pcr !in r.seen then InitvalCb(st1, Enter(r, e, memory).locality, e.pcr) else st1
  }

  /** The answer of event_data_cb. It checks the size of variables and of partition tables only. */
  predicate Answer(kind: UInt32, data: seq<Byte>) {
    data == [] ||
    (if IsVariable(kind) then |data| >= 32
     else if kind == EV_EFI_GPT_EVENT then |data| >= 100
     else true)
  }

  // ---- What the data callback writes ----

  /** The first NUL from `at` on, or the end. */
  function FirstNul(memory: seq<Byte>, at: nat): (i: nat)
    requires at <= |memory|
    ensures at <= i <= |memory| && (forall j :: at <= j < i ==> memory[j] != 0) && (i < |memory| ==> memory[i] == 0)
    decreases |memory| - at
  {
    if at == |memory| || memory[at] == 0 then at else FirstNul(memory, at + 1)
  }

  /** The memory after event_ipl has replaced the tabs from `at` to the first NUL by spaces. */
  function Untab(memory: seq<Byte>, at: nat): (m: seq<Byte>)
    requires at <= |memory|
    ensures |m| == |memory|
  {
    seq(|memory|, i requires 0 <= i < |memory| => if at <= i < FirstNul(memory, at) && memory[i] == 9 then 32
        else memory[i])
  }

  predicate Writes(kind: UInt32, data: seq<Byte>) { kind == EV_IPL && data != [] }

  /** The memory after the data callback on an event whose data is at `at`. */
  function Written(memory: seq<Byte>, at: nat, kind: UInt32, data: seq<Byte>): (m: seq<Byte>)
    requires at <= |memory|
    ensures |m| == |memory|
  {
    if Writes(kind, data) then Untab(memory, at) else memory
  }

  /** Memory goes on behind the log, for 17 bytes at least and to a NUL. */
  predicate Backed(memory: seq<Byte>, end: nat) {
    end + 17 <= |memory| && memory[|memory| - 1] == 0
  }

  // ---- The run over a log ----

  /** One round of foreach_event2 on a parsed event. */
  function Visit(h: Hash, r: Reader, st: State, e: Event, memory: seq<Byte>): Outcome
    requires |memory| >= 17
  {
    if MayStart(r.hcrtm, e) && EventSize(e) < 17 then Outcome(false, st)
    else
      var o := DigestCbs(h, HeaderCb(EnterState(r, st, e, memory), e.pcr, e.kind), e.digests);
      if !o.ok then o
      else Outcome(BodyOk(e.kind, e.data) && Answer(e.kind, e.data), o.st)
  }

  /** Success, the state, and the memory as the callbacks have left it. */
  datatype Final = Final(ok: bool, st: State, memory: seq<Byte>)

  /** foreach_event2 on the log at `at` .. `end`. Records behind an event are read from the memory
      that its data callback leaves. */
  function Run(h: Hash, r: Reader, st: State, memory: seq<Byte>, at: nat, end: nat): Final
    requires at <= end && Backed(memory, end)
    decreases end - at
  {
    if at == end then Final(true, st, memory)
    else
      var p := ParseEvent(memory[at..end]);
      if p.None? then Final(false, st, memory)
      else
        var e, data := p.value, at + DataAt(p.value);
        var o := Visit(h, r, st, e, memory[data..]);
        if !o.ok then Final(false, o.st, memory)
        else
          Run(h, Enter(r, e, memory[data..]), o.st, Written(memory, data, e.kind, e.data), at + EventSize(e), end)
  }

  /** The visits of a list of events as they were logged: `Memory` is what a pointer to the data of
      the first one reads. */
  function Memory(es: seq<Event>, past: seq<Byte>): (m: seq<Byte>)
    requires es != [] && EventsOk(es) && |past| >= 17
    ensures |m| >= 17
  {
    es[0].data + BytesOfEvents(es[1..]) + past
  }

  function RunEvents(h: Hash, r: Reader, st: State, es: seq<Event>, past: seq<Byte>): Outcome
    requires |past| >= 17 && EventsOk(es)
    decreases |es|
  {
    if es == [] then Outcome(true, st)
    else
      var o := Visit(h, r, st, es[0], Memory(es, past));
      if !o.ok then o
      else RunEvents(h, Enter(r, es[0], Memory(es, past)), o.st, es[1..], past)
  }

  // ---- Running a log is running its events ----

  /** The second pass calls the callback on the digests that the first pass has parsed. */
  lemma {:induction false} PassVisits(h: Hash, st: State, s: seq<Byte>, count: nat, size: nat)
    requires size <= |s| && ParseDigests(s, count, size).Some?
    ensures DigestPass(h, st, s, count, size) == DigestCbs(h, st, ParseDigests(s, count, size).value)
    decreases count
  {
    hide DigestCb;
    if count > 0 {
      var d := Digest2(ReadU16(s, 0), s[2..2 + HashSize(ReadU16(s, 0))]);
      var n := 2 + HashSize(d.alg);
      var rest := ParseDigests(s[n..], count - 1, size - n).value;
      assert ([d] + rest)[1..] == rest;
      PassVisits(h, DigestCb(h, st, d).st, s[n..], count - 1, size - n);
    }
  }

  /** No EV_IPL event whose data has no NUL is directly followed by an event for PCR 9. */
  predicate Harmless(es: seq<Event>) {
    |es| < 2 || (!Spoils(es[0], es[1]) && Harmless(es[1..]))
  }

  predicate Spoils(e: Event, next: Event) {
    Writes(e.kind, e.data) && FirstNul(e.data, 0) == |e.data| && next.pcr == 9
  }

  /** The log `es` lies at `at` .. `end`. */
  ghost predicate Holds(memory: seq<Byte>, at: nat, end: nat, es: seq<Event>) {
    EventsOk(es) && at <= end && Backed(memory, end) && memory[at..end] == BytesOfEvents(es)
  }

  lemma {:induction false} NulBefore(memory: seq<Byte>, at: nat, i: nat)
    requires at <= i < |memory| && memory[i] == 0
    ensures FirstNul(memory, at) <= i
    decreases |memory| - at
  {
    if memory[at] != 0 {
      NulBefore(memory, at + 1, i);
    }
  }

  lemma {:induction false} NulNotBefore(memory: seq<Byte>, at: nat, i: nat)
    requires at <= i <= |memory| && forall j :: at <= j < i ==> memory[j] != 0
    ensures FirstNul(memory, at) >= i
    decreases |memory| - at
  {
    if at < i {
      NulNotBefore(memory, at + 1, i);
    }
  }

  /** The search for a NUL leaves a part of memory exactly when the part holds none. */
  lemma NulWithin(memory: seq<Byte>, at: nat, data: seq<Byte>)
    requires at + |data| <= |memory| && memory[at..at + |data|] == data
    ensures FirstNul(memory, at) >= at + |data| <==> FirstNul(data, 0) == |data|
  {
    hide FirstNul;
    var i := FirstNul(data, 0);
    forall j | 0 <= j < |data| ensures memory[at + j] == data[j] {
      assert memory[at..at + |data|][j] == memory[at + j];
    }
    if i < |data| {
      NulBefore(memory, at, at + i);
    } else {
      forall j | at <= j < at + |data| ensures memory[j] != 0 {
        assert memory[j] == data[j - at];
      }
      NulNotBefore(memory, at, at + |data|);
    }
  }

  /** Whatever is parsed behind a write: a record there is read only if the write left it alone. */
  lemma ParsedIsSpared(memory: seq<Byte>, data: nat, next: nat, end: nat)
    requires data <= next <= end <= |memory|
    requires ParseEvent(Untab(memory, data)[next..end]).Some?
    ensures Untab(memory, data)[next..] == memory[next..]
  {
    hide ParseDigests;
    var m := Untab(memory, data);
    var s := m[next..end];
    assert ReadU32(s, 0) <= 31;
    assert s[1] == 0 && s[0] <= 31;
    assert m[next + 1] == 0 && m[next] <= 31;
    assert memory[next + 1] == 0;
    NulBefore(memory, data, next + 1);
    forall i | next <= i < |memory| ensures m[i] == memory[i] {
    }
  }

  /** Where the first event of a log lies, and what follows it. */
  lemma HeldParts(memory: seq<Byte>, at: nat, end: nat, es: seq<Event>)
    requires Holds(memory, at, end, es) && es != []
    ensures EventOk(es[0]) && Backed(memory, end)
    ensures var e := es[0];
            var data, next := at + DataAt(e), at + EventSize(e);
            && at < data <= next <= end && |e.data| == next - data && memory[data..next] == e.data
            && Holds(memory, next, end, es[1..])
            && ParseEvent(memory[at..end]) == Some(e)
            && memory[data..] == Memory(es, memory[end..])
  {
    hide ParseEvent, BytesOfEvent, RecordOk, BodyOk;
    var e, rest := es[0], BytesOfEvents(es[1..]);
    assert EventOk(e);
    EventParses(e, rest);
    DataAndRest(e, rest);
    var s := memory[at..end];
    assert s == BytesOfEvent(e) + rest;
    assert |BytesOfEvent(e)| == EventSize(e);
    assert s[EventSize(e)..] == memory[at + EventSize(e)..end];
    assert s[DataAt(e)..] == memory[at + DataAt(e)..end];
    assert memory[at + DataAt(e)..] == memory[at + DataAt(e)..end] + memory[end..];
    assert (e.data + rest)[..|e.data|] == e.data;
    assert memory[at + DataAt(e)..end][..|e.data|] == memory[at + DataAt(e)..at + EventSize(e)];
  }

  /** A record begins with its PCR number, of which only the first byte is not zero. */
  lemma RecordStarts(memory: seq<Byte>, at: nat, end: nat, es: seq<Event>)
    requires Holds(memory, at, end, es) && es != []
    ensures EventOk(es[0]) && at + 4 <= end <= |memory|
    ensures memory[at] == es[0].pcr && memory[at + 1] == memory[at + 2] == memory[at + 3] == 0
  {
    hide DigestsLength, BytesOfDigests, BodyOk, ReadU32, ParseEvent, BytesOfEvent;
    var e := es[0];
    HeldParts(memory, at, end, es);
    RecordFields(e, BytesOfEvents(es[1..]));
    SmallWord(memory[at..end]);
    var s := memory[at..end];
    assert s[0] == memory[at] && s[1] == memory[at + 1] && s[2] == memory[at + 2] && s[3] == memory[at + 3];
  }

  lemma SmallWord(s: seq<Byte>)
    requires |s| >= 4 && ReadU32(s, 0) < 0x100
    ensures s[0] == ReadU32(s, 0) && s[1] == s[2] == s[3] == 0
  {
  }

  /** The write of an event's data callback leaves the log behind the event alone if and only if the
      event does not spoil the next one; and a spoilt record is not read as one. */
  lemma SparesExactly(memory: seq<Byte>, at: nat, end: nat, es: seq<Event>)
    requires Holds(memory, at, end, es) && es != []
    ensures EventOk(es[0]) && at + DataAt(es[0]) <= at + EventSize(es[0]) <= end
    ensures var e := es[0];
            var m, next := Written(memory, at + DataAt(e), e.kind, e.data), at + EventSize(e);
            var spoils := |es| >= 2 && Spoils(e, es[1]);
            && (m[next..end] == memory[next..end] <==> !spoils)
            && (|es| >= 2 && !spoils ==> m[next..] == memory[next..])
            && (spoils ==> next < end && ParseEvent(m[next..end]).None?)
            && Backed(m, end)
  {
    hide ParseEvent, BytesOfEvents, EventSize, DataAt, FirstNul, Holds, Untab, BodyOk;
    var e := es[0];
    HeldParts(memory, at, end, es);
    var data, next := at + DataAt(e), at + EventSize(e);
    WrittenBacked(memory, data, e.kind, e.data, end);
    if Writes(e.kind, e.data) {
      NulWithin(memory, data, e.data);
      if |es| == 1 {
        EmptyLog(memory, next, end, es[1..]);
      } else {
        RecordStarts(memory, next, end, es[1..]);
        assert es[1] == es[1..][0] && es[1].pcr < 32;
        NextRecordSpared(memory, data, next, end, es[1].pcr);
      }
    }
  }

  lemma EmptyLog(memory: seq<Byte>, at: nat, end: nat, es: seq<Event>)
    requires Holds(memory, at, end, es) && es == []
    ensures at == end
  {
    assert |memory[at..end]| == 0;
  }

  lemma NextRecordSpared(memory: seq<Byte>, data: nat, next: nat, end: nat, pcr: UInt32)
    requires data <= next <= next + 4 <= end <= |memory| && pcr < 32
    requires memory[next] == pcr && memory[next + 1] == memory[next + 2] == memory[next + 3] == 0
    ensures var m, spoils := Untab(memory, data), FirstNul(memory, data) >= next && pcr == 9;
            && (m[next..end] == memory[next..end] <==> !spoils)
            && (!spoils ==> m[next..] == memory[next..])
            && (spoils ==> ParseEvent(m[next..end]).None?)
  {
    hide ParseDigests, FirstNul;
    var m := Untab(memory, data);
    NulBefore(memory, data, next + 1);
    assert forall i :: next < i < |memory| ==> m[i] == memory[i];
    assert m[next..end][0] == m[next] && memory[next..end][0] == memory[next];
    if FirstNul(memory, data) >= next && pcr == 9 {
      assert m[next] == 32;
      assert ReadU32(m[next..end], 0) >= 32;
    }
  }

  /** The run over a held log: it succeeds if and only if the log is harmless and all its events are
      visited with success; then, and on every harmless log, the state is that of these visits. */
  lemma {:induction false} RunVisits(h: Hash, r: Reader, st: State, memory: seq<Byte>, at: nat, end: nat,
                                     es: seq<Event>)
    requires Holds(memory, at, end, es)
    ensures var run, visits := Run(h, r, st, memory, at, end), RunEvents(h, r, st, es, memory[end..]);
            && (run.ok <==> Harmless(es) && visits.ok)
            && (Harmless(es) ==> run.st == visits.st)
    decreases |es|
  {
    hide Visit, Enter, ParseEvent, BytesOfEvents, Written, Spoils, Run, RunEvents, EventSize, DataAt, BodyOk, Memory,
         EventsOk;
    if es == [] {
      EmptyLog(memory, at, end, es);
      RunsEnd(h, r, st, memory, end);
    } else {
      HeldParts(memory, at, end, es);
      RunUnfolds(h, r, st, memory, at, end);
      RunEventsUnfold(h, r, st, es, memory[end..]);
      var e := es[0];
      var data, next := at + DataAt(e), at + EventSize(e);
      var o := Visit(h, r, st, e, memory[data..]);
      if o.ok {
        SparesExactly(memory, at, end, es);
        var m := Written(memory, data, e.kind, e.data);
        var r' := Enter(r, e, memory[data..]);
        if |es| == 1 {
          EmptyLog(memory, next, end, es[1..]);
          RunsEnd(h, r', o.st, m, end);
          RunsEnd(h, r', o.st, memory, end);
        } else if Spoils(e, es[1]) {
          RunUnfolds(h, r', o.st, m, next, end);
        } else {
          HoldsStill(memory, m, next, end, es[1..]);
          RunVisits(h, r', o.st, m, next, end, es[1..]);
        }
      }
    }
  }

  lemma HoldsStill(memory: seq<Byte>, m: seq<Byte>, at: nat, end: nat, es: seq<Event>)
    requires Holds(memory, at, end, es) && at <= |m| == |memory| && m[at..] == memory[at..]
    ensures Holds(m, at, end, es) && end <= |m| && m[end..] == memory[end..]
  {
    hide EventsOk, BytesOfEvents;
    assert m[at..end] == m[at..][..end - at] == memory[at..][..end - at] == memory[at..end];
    assert m[end..] == m[at..][end - at..] == memory[at..][end - at..] == memory[end..];
    assert m[|m| - 1] == m[at..][|m| - 1 - at] == memory[at..][|m| - 1 - at];
  }

  lemma RunsEnd(h: Hash, r: Reader, st: State, memory: seq<Byte>, end: nat)
    requires Backed(memory, end)
    ensures Run(h, r, st, memory, end, end) == Final(true, st, memory)
    ensures RunEvents(h, r, st, [], memory[end..]) == Outcome(true, st)
  {
  }

  lemma RunUnfolds(h: Hash, r: Reader, st: State, memory: seq<Byte>, at: nat, end: nat)
    requires at < end && Backed(memory, end)
    ensures var p := ParseEvent(memory[at..end]);
            && (p.Some? ==>
                  && at + DataAt(p.value) <= at + EventSize(p.value) <= end && |memory[at + DataAt(p.value)..]| >= 17
                  && Backed(Written(memory, at + DataAt(p.value), p.value.kind, p.value.data), end))
            && Run(h, r, st, memory, at, end) ==
               if p.None? then Final(false, st, memory)
               else
                 var e, data := p.value, at + DataAt(p.value);
                 var o := Visit(h, r, st, e, memory[data..]);
                 if !o.ok then Final(false, o.st, memory)
                 else
                   Run(h, Enter(r, e, memory[data..]), o.st, Written(memory, data, e.kind, e.data), at + EventSize(e),
                       end)
  {
    hide Visit, Enter, ParseEvent;
  }

  lemma WrittenBacked(memory: seq<Byte>, at: nat, kind: UInt32, data: seq<Byte>, end: nat)
    requires Backed(memory, end) && at <= |memory|
    ensures Backed(Written(memory, at, kind, data), end)
  {
  }

  lemma RunEventsUnfold(h: Hash, r: Reader, st: State, es: seq<Event>, past: seq<Byte>)
    requires |past| >= 17 && EventsOk(es) && es != []
    ensures EventsOk(es[1..])
    ensures var m := Memory(es, past);
            var o := Visit(h, r, st, es[0], m);
            RunEvents(h, r, st, es, past)
            == if !o.ok then o else RunEvents(h, Enter(r, es[0], m), o.st, es[1..], past)
  {
  }

  /** A run succeeds only on a log that is exactly a list of well-formed events: no write makes a
      record out of something else. */
  lemma {:induction false} RunParses(h: Hash, r: Reader, st: State, memory: seq<Byte>, at: nat, end: nat)
    requires at <= end && Backed(memory, end) && Run(h, r, st, memory, at, end).ok
    ensures ParseLog(memory[at..end]).Some?
    decreases end - at
  {
    hide Enter, ParseEvent, BodyOk, DigestCbs, LocalitySet, EnterState, Written, ParseLog, Run, DataAt, EventSize;
    LogUnfolds(memory[at..end]);
    if at < end {
      RunUnfolds(h, r, st, memory, at, end);
      var e := ParseEvent(memory[at..end]).value;
      SizePositive(e);
      var data, next := at + DataAt(e), at + EventSize(e);
      assert memory[at..end][EventSize(e)..] == memory[next..end];
      var m, r', o := Written(memory, data, e.kind, e.data), Enter(r, e, memory[data..]),
        Visit(h, r, st, e, memory[data..]);
      RunParses(h, r', o.st, m, next, end);
      if next < end {
        RunUnfolds(h, r', o.st, m, next, end);
        WrittenIsSpared(memory, data, next, end, e.kind, e.data);
      } else {
        assert m[next..end] == [] == memory[next..end];
      }
    }
  }

  lemma WrittenIsSpared(memory: seq<Byte>, data: nat, next: nat, end: nat, kind: UInt32, bytes: seq<Byte>)
    requires data <= next <= end <= |memory|
    requires ParseEvent(Written(memory, data, kind, bytes)[next..end]).Some?
    ensures Written(memory, data, kind, bytes)[next..end] == memory[next..end]
  {
    hide ParseEvent, Untab;
    if Writes(kind, bytes) {
      ParsedIsSpared(memory, data, next, end);
      var m := Untab(memory, data);
      assert m[next..end] == m[next..][..end - next];
      assert memory[next..end] == memory[next..][..end - next];
    }
  }

  /** foreach_event2 accepts a log exactly when it is the concatenation of well-formed events, none of
      them spoilt, and every visit of these events, in this order, succeeds. */
  lemma AcceptedRuns(h: Hash, memory: seq<Byte>, at: nat, end: nat)
    requires at <= end && Backed(memory, end)
    ensures var r := Reader(false, {}, 0);
            Run(h, r, Fresh(), memory, at, end).ok <==>
            exists es :: Holds(memory, at, end, es) && Harmless(es)
                         && RunEvents(h, r, Fresh(), es, memory[end..]).ok
  {
    hide Run, RunEvents, ParseLog, BytesOfEvents, EventsOk, Harmless, Fresh;
    var r := Reader(false, {}, 0);
    if Run(h, r, Fresh(), memory, at, end).ok {
      RunParses(h, r, Fresh(), memory, at, end);
      var es := ParseLog(memory[at..end]).value;
      AcceptedLogs(memory[at..end], es);
      RunVisits(h, r, Fresh(), memory, at, end, es);
      assert Holds(memory, at, end, es);
    }
    forall es | Holds(memory, at, end, es) && Harmless(es) && RunEvents(h, r, Fresh(), es, memory[end..]).ok
      ensures Run(h, r, Fresh(), memory, at, end).ok
    {
      RunVisits(h, r, Fresh(), memory, at, end, es);
    }
  }

  lemma DataAndRest(e: Event, rest: seq<Byte>)
    requires RecordOk(e)
    ensures var s := BytesOfEvent(e) + rest;
            |s| >= EventSize(e) >= DataAt(e) && |s| > 0
            && s[DataAt(e)..] == e.data + rest && s[EventSize(e)..] == rest
  {
  }
}
