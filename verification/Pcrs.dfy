/** What a replayed log leaves in the PCRs. */
module Pcrs {
  import opened Words
  import opened EventLog
  import opened Replay

  /** The value of a PCR after extending it with each digest in turn. */
  function Fold(h: Hash, v: Digest, ds: seq<seq<Byte>>): Digest
    decreases |ds|
  {
    if ds == [] then v else Fold(h, h(v + ds[0]), ds[1..])
  }

  /** The SHA-256 digests of a list, in order. */
  function Sha256s(ds: seq<Digest2>): seq<seq<Byte>> {
    if ds == [] then []
    else (if ds[0].alg == SHA256 then [ds[0].bytes] else []) + Sha256s(ds[1..])
  }

  predicate NoAction(e: Event) { e.kind == EV_NO_ACTION }

  /** What an event should extend into its PCR. */
  function Promised(e: Event): seq<seq<Byte>> {
    if NoAction(e) then [] else Sha256s(e.digests)
  }

  /** What it does extend, when the suppression flag is `pending` before its header. */
  function Extended(pending: bool, e: Event): seq<seq<Byte>> {
    Sha256s(Unsuppressed(pending, e))
  }

  function PendingAfter(pending: bool, e: Event): bool {
    (pending || NoAction(e)) && e.digests == []
  }

  /** Which events the one-shot suppression flag treats as promised. */
  predicate Clean(pending: bool, e: Event) {
    e.digests != [] ==>
      if NoAction(e) then forall d :: d in e.digests[1..] ==> d.alg != SHA256
      else pending ==> e.digests[0].alg != SHA256
  }

  predicate AllClean(pending: bool, es: seq<Event>)
    decreases |es|
  {
    es == [] || (Clean(pending, es[0]) && AllClean(PendingAfter(pending, es[0]), es[1..]))
  }

  /** The promised digests of a log for one PCR, in log order. */
  function Promises(es: seq<Event>, p: UInt32): seq<seq<Byte>> {
    if es == [] then []
    else (if es[0].pcr == p then Promised(es[0]) else []) + Promises(es[1..], p)
  }

  // ---- The suppression flag ----

  lemma {:induction false} NoSha256(ds: seq<Digest2>)
    ensures Sha256s(ds) == [] <==> forall d :: d in ds ==> d.alg != SHA256
  {
    if ds != [] {
      NoSha256(ds[1..]);
      assert ds == [ds[0]] + ds[1..];
    }
  }

  /** An event extends exactly what it should if and only if it is clean. */
  lemma CleanExactly(pending: bool, e: Event)
    ensures Extended(pending, e) == Promised(e) <==> Clean(pending, e)
  {
    if e.digests != [] {
      NoSha256(e.digests[1..]);
      var s, t := Sha256s(e.digests), Sha256s(e.digests[1..]);
      assert |s| == |t| + if e.digests[0].alg == SHA256 then 1 else 0;
      assert e.digests[0].alg != SHA256 ==> s == t;
    }
  }

  /** The flag before each event of a log. */
  function Flags(pending: bool, es: seq<Event>): (fs: seq<bool>)
    ensures |fs| == |es|
    decreases |es|
  {
    if es == [] then [] else [pending] + Flags(PendingAfter(pending, es[0]), es[1..])
  }

  /** In a whole log, every event extends exactly what it should if and only if all are clean. */
  lemma {:induction false} LogCleanExactly(pending: bool, es: seq<Event>)
    ensures AllClean(pending, es) <==>
            forall i :: 0 <= i < |es| ==> Extended(Flags(pending, es)[i], es[i]) == Promised(es[i])
    decreases |es|
  {
    hide Extended, Promised, Clean;
    if es != [] {
      var e, after := es[0], PendingAfter(pending, es[0]);
      CleanExactly(pending, e);
      LogCleanExactly(after, es[1..]);
      forall i | 1 <= i < |es|
        ensures Flags(pending, es)[i] == Flags(after, es[1..])[i - 1] && es[i] == es[1..][i - 1]
      {
      }
      if forall i :: 0 <= i < |es| ==> Extended(Flags(pending, es)[i], es[i]) == Promised(es[i]) {
        assert Extended(Flags(pending, es)[0], es[0]) == Promised(es[0]);
        forall i | 0 <= i < |es[1..]|
          ensures Extended(Flags(after, es[1..])[i], es[1..][i]) == Promised(es[1..][i])
        {
          assert Extended(Flags(pending, es)[i + 1], es[i + 1]) == Promised(es[i + 1]);
        }
      }
    }
  }

  /** One digest per event makes every event clean. */
  lemma {:induction false} OneDigestIsClean(es: seq<Event>)
    requires forall e :: e in es ==> |e.digests| == 1
    ensures AllClean(false, es)
  {
    if es != [] {
      assert es == [es[0]] + es[1..];
      OneDigestIsClean(es[1..]);
    }
  }

  // ---- The digest callback ----

  lemma DigestCbsUnfold(h: Hash, st: State, ds: seq<Digest2>)
    requires ds != []
    ensures var o := DigestCb(h, st, ds[0]);
            DigestCbs(h, st, ds) == if !o.ok then o else DigestCbs(h, o.st, ds[1..])
  {
  }

  /** Without the flag, the callback extends the active PCR with every SHA-256 digest. */
  lemma {:induction false} CallbacksFold(h: Hash, st: State, ds: seq<Digest2>)
    requires !st.pending
    ensures var o := DigestCbs(h, st, ds);
            && (o.ok <==> ds == [] || st.active < 24)
            && (o.ok ==> o.st == st.(pcrs := o.st.pcrs)
                         && forall p :: 0 <= p < 24 ==>
                              o.st.pcrs[p] == if p == st.active then Fold(h, st.pcrs[p], Sha256s(ds)) else st.pcrs[p])
    decreases |ds|
  {
    hide DigestCbs;
    if ds == [] {
      NoDigests(h, st);
    } else {
      DigestCbsUnfold(h, st, ds);
      var o := DigestCb(h, st, ds[0]);
      if o.ok {
        CallbacksFold(h, o.st, ds[1..]);
        if ds[0].alg == SHA256 {
          FoldFirst(h, st.pcrs[st.active], ds[0].bytes, Sha256s(ds[1..]));
        } else {
          assert Sha256s(ds) == Sha256s(ds[1..]);
        }
      }
    }
  }

  lemma NoDigests(h: Hash, st: State)
    ensures DigestCbs(h, st, []) == Outcome(true, st)
  {
  }

  lemma FoldFirst(h: Hash, v: Digest, d: seq<Byte>, ds: seq<seq<Byte>>)
    ensures Fold(h, v, [d] + ds) == Fold(h, h(v + d), ds)
  {
    assert ([d] + ds)[1..] == ds;
  }

  lemma {:induction false} FoldJoins(h: Hash, v: Digest, a: seq<seq<Byte>>, b: seq<seq<Byte>>)
    ensures Fold(h, v, a + b) == Fold(h, Fold(h, v, a), b)
    decreases |a|
  {
    if a == [] {
      assert a + b == b;
    } else {
      assert a + b == [a[0]] + (a[1..] + b);
      FoldFirst(h, v, a[0], a[1..] + b);
      FoldJoins(h, h(v + a[0]), a[1..], b);
    }
  }

  /** The digests that get past the suppression flag. */
  function Unsuppressed(pending: bool, e: Event): seq<Digest2> {
    if (pending || NoAction(e)) && e.digests != [] then e.digests[1..] else e.digests
  }

  /** The effect of an event's digests: the active PCR gets what Extended says. */
  lemma EventFolds(h: Hash, st: State, e: Event)
    ensures var now := HeaderCb(st, e.pcr, e.kind);
            var o := DigestCbs(h, now, e.digests);
            && (o.ok <==> e.pcr < 24 || Unsuppressed(st.pending, e) == [])
            && (o.ok ==>
                  && o.st.pending == PendingAfter(st.pending, e) && o.st.inits == st.inits
                  && forall p :: 0 <= p < 24 ==>
                       o.st.pcrs[p] == if p == e.pcr then Fold(h, st.pcrs[p], Extended(st.pending, e)) else st.pcrs[p])
  {
    hide DigestCbs, Fold, Sha256s;
    var now := HeaderCb(st, e.pcr, e.kind);
    if now.pending && e.digests != [] {
      DigestCbsUnfold(h, now, e.digests);
      CallbacksFold(h, now.(pending := false), e.digests[1..]);
    } else if e.digests == [] {
      NoDigests(h, now);
      FoldNone(h);
    } else {
      CallbacksFold(h, now, e.digests);
    }
  }

  lemma FoldNone(h: Hash)
    ensures forall v: Digest :: Fold(h, v, Sha256s([])) == v
  {
  }

  // ---- The startup locality ----

  /** What follows the event data in memory does not matter. */
  ghost predicate ReadsOwnData(hcrtm: bool, e: Event) {
    forall r1: seq<Byte>, r2: seq<Byte> :: |r1| >= 17 && |r2| >= 17 ==>
      LocalitySet(hcrtm, e, e.data + r1) == LocalitySet(hcrtm, e, e.data + r2)
  }

  /** The size check bounds the record and not its data: the locality is taken from behind the event
      exactly when the data is a proper beginning of a startup locality record. */
  lemma LocalityFromOwnData(hcrtm: bool, e: Event)
    ensures ReadsOwnData(hcrtm, e) <==>
            !MayStart(hcrtm, e) || |e.data| >= 17 || e.data != Signature()[..|e.data|]
  {
    hide Signature;
    var n := |e.data|;
    if n <= 16 && e.data == Signature()[..n] && MayStart(hcrtm, e) {
      var r0, r1 := Signature()[n..] + Zeros(17), Signature()[n..] + [1] + Zeros(16);
      Behind(e, r0);
      Behind(e, r1);
      assert LocalitySet(hcrtm, e, e.data + r0) == Some(0);
      assert LocalitySet(hcrtm, e, e.data + r1) == Some(1);
    } else {
      forall r1: seq<Byte>, r2: seq<Byte> | |r1| >= 17 && |r2| >= 17
        ensures LocalitySet(hcrtm, e, e.data + r1) == LocalitySet(hcrtm, e, e.data + r2)
      {
        if n >= 17 {
          assert (e.data + r1)[..16] == e.data[..16] == (e.data + r2)[..16];
        } else {
          assert (e.data + r1)[..16][..n] == e.data == (e.data + r2)[..16][..n];
        }
      }
    }
  }

  lemma Behind(e: Event, r: seq<Byte>)
    requires |e.data| <= 16 && e.data == Signature()[..|e.data|]
    requires |r| >= 17 && r[..16 - |e.data|] == Signature()[|e.data|..]
    ensures (e.data + r)[..16] == Signature() && (e.data + r)[16] == r[16 - |e.data|]
  {
    hide Signature;
    assert (e.data + r)[..16] == e.data + r[..16 - |e.data|];
  }

  /** The localities that a log sets, in order. */
  function Localities(hcrtm: bool, es: seq<Event>, past: seq<Byte>): seq<Byte>
    requires |past| >= 17 && EventsOk(es)
    decreases |es|
  {
    if es == [] then []
    else
      var l := LocalitySet(hcrtm, es[0], Memory(es, past));
      (if l.Some? then [l.value] else []) + Localities(hcrtm || IsHcrtm(es[0]), es[1..], past)
  }

  /** No locality is set once PCR 0 has been extended. */
  predicate LocalityFirst(hcrtm: bool, es: seq<Event>, past: seq<Byte>)
    requires |past| >= 17 && EventsOk(es)
    decreases |es|
  {
    es == [] ||
    (var later := hcrtm || IsHcrtm(es[0]);
     if es[0].pcr == 0 && Promised(es[0]) != [] then Localities(later, es[1..], past) == []
     else LocalityFirst(later, es[1..], past))
  }

  /** A PCR value with the last of the given localities in its last byte. */
  function Started(v: Digest, ls: seq<Byte>): Digest {
    if ls == [] then v else v[31 := ls[|ls| - 1]]
  }

  lemma StartedAgain(v: Digest, l: Byte, ls: seq<Byte>)
    ensures Started(v, [l] + ls) == Started(v[31 := l], ls)
  {
    if ls != [] {
      assert ([l] + ls)[|ls|] == ls[|ls| - 1];
      assert v[31 := l][31 := ls[|ls| - 1]] == v[31 := ls[|ls| - 1]];
    }
  }

  // ---- Replay ----

  /** One event: PCR 0 may get a locality, then the event's PCR is extended. */
  lemma VisitFolds(h: Hash, r: Reader, st: State, e: Event, memory: seq<Byte>)
    requires |memory| >= 17 && Visit(h, r, st, e, memory).ok && Clean(st.pending, e)
    ensures var now := Visit(h, r, st, e, memory).st;
            var l := LocalitySet(r.hcrtm, e, memory);
            && now.pending == PendingAfter(st.pending, e)
            && forall p :: 0 <= p < 24 ==>
                 var v: Digest := if p == 0 && l.Some? then st.pcrs[p][31 := l.value] else st.pcrs[p];
                 now.pcrs[p] == if p == e.pcr then Fold(h, v, Promised(e)) else v
  {
    hide DigestCbs, Fold, Extended, Promised, Clean, LocalitySet, BodyOk;
    EventFolds(h, EnterState(r, st, e, memory), e);
    CleanExactly(st.pending, e);
  }

  /** Replay from any state: a PCR other than 0 is folded over its promised digests. */
  lemma {:induction false} ReplayFolds(h: Hash, r: Reader, st: State, es: seq<Event>, past: seq<Byte>)
    requires |past| >= 17 && EventsOk(es) && AllClean(st.pending, es)
    requires RunEvents(h, r, st, es, past).ok
    ensures forall p :: 1 <= p < 24 ==>
              RunEvents(h, r, st, es, past).st.pcrs[p] == Fold(h, st.pcrs[p], Promises(es, p))
    decreases |es|
  {
    hide Visit, Enter, LocalitySet, RunEvents, Fold, Promised, Memory;
    if es == [] {
      NothingToRun(h, r, st, past);
    } else {
      var m := Memory(es, past);
      var o := Visit(h, r, st, es[0], m);
      RunEventsUnfold(h, r, st, es, past);
      VisitFolds(h, r, st, es[0], m);
      ReplayFolds(h, Enter(r, es[0], m), o.st, es[1..], past);
      forall p | 1 <= p < 24
        ensures Fold(h, o.st.pcrs[p], Promises(es[1..], p)) == Fold(h, st.pcrs[p], Promises(es, p))
      {
        FoldPromises(h, st.pcrs[p], es, p);
      }
    }
  }

  lemma NothingToRun(h: Hash, r: Reader, st: State, past: seq<Byte>)
    requires |past| >= 17
    ensures RunEvents(h, r, st, [], past) == Outcome(true, st)
    ensures forall v: Digest, p: UInt32 :: Fold(h, v, Promises([], p)) == v
  {
  }

  lemma FoldPromises(h: Hash, v: Digest, es: seq<Event>, p: UInt32)
    requires es != []
    ensures Fold(h, v, Promises(es, p))
            == Fold(h, if es[0].pcr == p then Fold(h, v, Promised(es[0])) else v, Promises(es[1..], p))
  {
    hide Fold, Promised;
    if es[0].pcr == p {
      FoldJoins(h, v, Promised(es[0]), Promises(es[1..], p));
    } else {
      assert [] + Promises(es[1..], p) == Promises(es[1..], p);
    }
  }

  /** PCR 0 starts from the last locality that is set. */
  lemma {:induction false} ReplayFolds0(h: Hash, r: Reader, st: State, es: seq<Event>, past: seq<Byte>)
    requires |past| >= 17 && EventsOk(es) && AllClean(st.pending, es)
    requires LocalityFirst(r.hcrtm, es, past) || Localities(r.hcrtm, es, past) == []
    requires RunEvents(h, r, st, es, past).ok
    ensures RunEvents(h, r, st, es, past).st.pcrs[0]
            == Fold(h, Started(st.pcrs[0], Localities(r.hcrtm, es, past)), Promises(es, 0))
    decreases |es|
  {
    hide Visit, LocalitySet, RunEvents, Fold, Promised, Memory, Started;
    if es == [] {
      NothingToRun(h, r, st, past);
      NotStarted(st.pcrs[0]);
    } else {
      var m := Memory(es, past);
      var o := Visit(h, r, st, es[0], m);
      RunEventsUnfold(h, r, st, es, past);
      VisitFolds(h, r, st, es[0], m);
      ReplayFolds0(h, Enter(r, es[0], m), o.st, es[1..], past);
      StartPromises(h, st.pcrs[0], r.hcrtm, es, past);
    }
  }

  lemma NotStarted(v: Digest)
    ensures Started(v, []) == v
  {
  }

  lemma StartPromises(h: Hash, v: Digest, hcrtm: bool, es: seq<Event>, past: seq<Byte>)
    requires |past| >= 17 && EventsOk(es) && es != []
    requires LocalityFirst(hcrtm, es, past) || Localities(hcrtm, es, past) == []
    ensures var l := LocalitySet(hcrtm, es[0], Memory(es, past));
            var v1: Digest := if l.Some? then v[31 := l.value] else v;
            var v2 := if es[0].pcr == 0 then Fold(h, v1, Promised(es[0])) else v1;
            Fold(h, Started(v, Localities(hcrtm, es, past)), Promises(es, 0))
            == Fold(h, Started(v2, Localities(hcrtm || IsHcrtm(es[0]), es[1..], past)), Promises(es[1..], 0))
  {
    hide LocalitySet, Fold, Promised, Memory, Started;
    var l := LocalitySet(hcrtm, es[0], Memory(es, past));
    var rest := Localities(hcrtm || IsHcrtm(es[0]), es[1..], past);
    var v1: Digest := if l.Some? then v[31 := l.value] else v;
    assert Started(v, Localities(hcrtm, es, past)) == Started(v1, rest) by {
      if l.Some? {
        StartedAgain(v, l.value, rest);
      } else {
        assert [] + rest == rest;
      }
    }
    FoldPromises(h, Started(v1, rest), es, 0);
    if es[0].pcr == 0 {
      if Promised(es[0]) == [] {
        FoldEmpty(h, v1);
        FoldEmpty(h, Started(v1, rest));
      } else {
        NotStarted(v1);
        NotStarted(Fold(h, v1, Promised(es[0])));
      }
    }
  }

  lemma FoldEmpty(h: Hash, v: Digest)
    ensures Fold(h, v, []) == v
  {
  }

  /** From the start, on the visits of a list of events. */
  lemma EventsFold(h: Hash, es: seq<Event>, past: seq<Byte>)
    requires |past| >= 17 && EventsOk(es) && AllClean(false, es) && LocalityFirst(false, es, past)
    requires RunEvents(h, Reader(false, {}, 0), Fresh(), es, past).ok
    ensures FoldedFrom(h, es, past, RunEvents(h, Reader(false, {}, 0), Fresh(), es, past).st)
  {
    var r := Reader(false, {}, 0);
    ReplayFolds(h, r, Fresh(), es, past);
    ReplayFolds0(h, r, Fresh(), es, past);
  }

  /** Every PCR is the fold of its promised digests from its start value. */
  ghost predicate FoldedFrom(h: Hash, es: seq<Event>, past: seq<Byte>, st: State)
    requires |past| >= 17 && EventsOk(es)
  {
    forall p :: 0 <= p < 24 ==>
      st.pcrs[p] == Fold(h, Started(ZERO, if p == 0 then Localities(false, es, past) else []), Promises(es, p))
  }

  /** Replay correctness: an accepted log of clean events, all of whose localities are set before
      PCR 0 is extended, leaves in every PCR the fold of its promised digests from its start value. */
  lemma ReplayIsFold(h: Hash, memory: seq<Byte>, at: nat, end: nat, es: seq<Event>)
    requires Holds(memory, at, end, es) && AllClean(false, es) && LocalityFirst(false, es, memory[end..])
    requires Run(h, Reader(false, {}, 0), Fresh(), memory, at, end).ok
    ensures Harmless(es)
    ensures FoldedFrom(h, es, memory[end..], Run(h, Reader(false, {}, 0), Fresh(), memory, at, end).st)
  {
    hide Run, RunEvents, Fold, Started, Localities, LocalityFirst, Promises, BytesOfEvents, Fresh, FoldedFrom;
    RunVisits(h, Reader(false, {}, 0), Fresh(), memory, at, end, es);
    EventsFold(h, es, memory[end..]);
  }

  /** When the visit of an event succeeds. */
  lemma VisitAccepts(h: Hash, r: Reader, st: State, e: Event, memory: seq<Byte>)
    requires |memory| >= 17
    ensures Visit(h, r, st, e, memory).ok <==>
            && !(MayStart(r.hcrtm, e) && EventSize(e) < 17)
            && (e.pcr < 24 || Unsuppressed(st.pending, e) == [])
            && BodyOk(e.kind, e.data) && Answer(e.kind, e.data)
  {
    hide DigestCbs, Fold, Extended, LocalitySet, BodyOk, Unsuppressed;
    EventFolds(h, EnterState(r, st, e, memory), e);
  }

  predicate OneSha256(e: Event) {
    |e.digests| == 1 && e.digests[0].alg == SHA256 && e.pcr < 24
  }

  /** The visits of events with one SHA-256 digest succeed if and only if no callback refuses the data. */
  lemma {:induction false} OneDigestRuns(h: Hash, r: Reader, st: State, es: seq<Event>, past: seq<Byte>)
    requires |past| >= 17 && EventsOk(es)
    requires forall e :: e in es ==> OneSha256(e)
    ensures RunEvents(h, r, st, es, past).ok <==> AllAnswered(es)
    decreases |es|
  {
    hide Visit, Enter, RunEvents, Memory, BodyOk, Answer;
    if es == [] {
      NothingToRun(h, r, st, past);
    } else {
      var e, m := es[0], Memory(es, past);
      assert es == [e] + es[1..];
      assert OneSha256(e) && EventOk(e);
      OneDigestSize(e);
      VisitAccepts(h, r, st, e, m);
      RunEventsUnfold(h, r, st, es, past);
      OneDigestRuns(h, Enter(r, e, m), Visit(h, r, st, e, m).st, es[1..], past);
    }
  }

  predicate AllAnswered(es: seq<Event>) {
    forall e :: e in es ==> Answer(e.kind, e.data)
  }

  lemma OneDigestSize(e: Event)
    requires |e.digests| == 1 && e.digests[0].alg == SHA256 && RecordOk(e)
    ensures EventSize(e) >= 50
  {
    assert DigestOk(e.digests[0]);
  }

  /** The replay theorem for logs with one SHA-256 digest per event: such a log is accepted if and
      only if it is harmless and no callback refuses its data, and then its PCRs are the folds. */
  lemma OneDigestReplay(h: Hash, memory: seq<Byte>, at: nat, end: nat, es: seq<Event>)
    requires Holds(memory, at, end, es) && LocalityFirst(false, es, memory[end..])
    requires forall e :: e in es ==> OneSha256(e)
    ensures var o := Run(h, Reader(false, {}, 0), Fresh(), memory, at, end);
            && (o.ok <==> Harmless(es) && AllAnswered(es))
            && (o.ok ==> FoldedFrom(h, es, memory[end..], o.st))
  {
    hide Run, RunEvents, FoldedFrom, Localities, LocalityFirst, BytesOfEvents, Fresh;
    RunVisits(h, Reader(false, {}, 0), Fresh(), memory, at, end, es);
    OneDigestIsClean(es);
    OneDigestRuns(h, Reader(false, {}, 0), Fresh(), es, memory[end..]);
    if Harmless(es) && AllAnswered(es) {
      ReplayIsFold(h, memory, at, end, es);
    }
  }

  /** A log that a tab breaks: a string without a NUL for PCR 8, then an event for PCR 9, each with
      one SHA-256 digest. */
  function TabLog(): (es: seq<Event>)
    ensures EventsOk(es)
  {
    var d := Digest2(0xB, Zeros(32));
    [Event(8, 0xD, [d], [0x61]), Event(9, 0xD, [d], [0])]
  }

  /** All its events are well-formed and would be visited with success, but the data callback of the
      first one turns the 9 behind it into a 32, which is no PCR number. */
  lemma TabBreaksLog(h: Hash)
    ensures RunEvents(h, Reader(false, {}, 0), Fresh(), TabLog(), Zeros(17)).ok
    ensures var s := BytesOfEvents(TabLog());
            !Run(h, Reader(false, {}, 0), Fresh(), s + Zeros(17), 0, |s|).ok
  {
    hide Run, RunEvents, BytesOfEvents, Fresh, FirstNul;
    var es := TabLog();
    var s, r := BytesOfEvents(es), Reader(false, {}, 0);
    var memory := s + Zeros(17);
    assert memory[0..|s|] == s && memory[|s|..] == Zeros(17);
    NulNotBefore(es[0].data, 0, 1);
    assert Spoils(es[0], es[1]);
    OneDigestRuns(h, r, Fresh(), es, Zeros(17));
    RunVisits(h, r, Fresh(), memory, 0, |s|, es);
  }

  /** Without the condition the replay is wrong: an EV_NO_ACTION event with two digests, which must
      not be extended at all, is extended with the second one. */
  lemma TwoDigestsExtend(h: Hash, r: Reader, first: Digest, second: Digest, past: seq<Byte>)
    requires |past| >= 17
    ensures var e := Event(1, 3, [Digest2(0xB, first), Digest2(0xB, second)], []);
            && !Clean(false, e) && Promised(e) == [] && EventOk(e)
            && Visit(h, r, Fresh(), e, past).ok
            && Visit(h, r, Fresh(), e, past).st.pcrs[1] == h(Zeros(32) + second)
  {
    var d := Digest2(0xB, second);
    var e := Event(1, 3, [Digest2(0xB, first), d], []);
    assert e.digests[1..] == [d];
    assert d in e.digests[1..];
    var st := EnterState(r, Fresh(), e, past);
    EventFolds(h, st, e);
    assert Sha256s([d]) == [d.bytes];
    FoldFirst(h, ZERO, d.bytes, []);
    FoldEmpty(h, h(ZERO + d.bytes));
    assert [d.bytes] + [] == [d.bytes];
    VisitAccepts(h, r, Fresh(), e, past);
  }

  // ---- The reported initial values ----

  /** The initial values a log should report: one per PCR, at its first event, zero for every PCR
      but 0, and for PCR 0 the locality that its first event sets. */
  function Reports(hcrtm: bool, seen: set<UInt32>, es: seq<Event>, past: seq<Byte>): seq<Init>
    requires |past| >= 17 && EventsOk(es)
    decreases |es|
  {
    if es == [] then []
    else
      var p, l := es[0].pcr, LocalitySet(hcrtm, es[0], Memory(es, past));
      (if p in seen then [] else [Init(p, if p == 0 && l.Some? then l.value else 0)])
        + Reports(hcrtm || IsHcrtm(es[0]), seen + {p}, es[1..], past)
  }

  lemma VisitReports(h: Hash, r: Reader, st: State, e: Event, memory: seq<Byte>)
    requires |memory| >= 17 && Visit(h, r, st, e, memory).ok
    requires 0 !in r.seen ==> r.locality == 0
    ensures var l := LocalitySet(r.hcrtm, e, memory);
            Visit(h, r, st, e, memory).st.inits
            == st.inits + if e.pcr in r.seen then [] else [Init(e.pcr, if e.pcr == 0 && l.Some? then l.value else 0)]
  {
    hide DigestCbs, Extended, Unsuppressed, BodyOk;
    EventFolds(h, EnterState(r, st, e, memory), e);
  }

  lemma CarriedLocality(r: Reader, e: Event, memory: seq<Byte>)
    requires |memory| >= 17 && (0 !in r.seen ==> r.locality == 0)
    ensures var next := Enter(r, e, memory);
            && (0 !in next.seen ==> next.locality == 0)
            && next.hcrtm == (r.hcrtm || IsHcrtm(e)) && next.seen == r.seen + {e.pcr}
  {
    hide Signature;
  }

  /** The locality that foreach_event2 carries along, and resets for other PCRs, reports these. */
  lemma {:induction false} EventsReport(h: Hash, r: Reader, st: State, es: seq<Event>, past: seq<Byte>)
    requires |past| >= 17 && EventsOk(es) && RunEvents(h, r, st, es, past).ok
    requires 0 !in r.seen ==> r.locality == 0
    ensures RunEvents(h, r, st, es, past).st.inits == st.inits + Reports(r.hcrtm, r.seen, es, past)
    decreases |es|
  {
    hide Visit, RunEvents, Memory, Enter, LocalitySet;
    if es == [] {
      NothingToRun(h, r, st, past);
    } else {
      var m := Memory(es, past);
      CarriedLocality(r, es[0], m);
      RunEventsUnfold(h, r, st, es, past);
      VisitReports(h, r, st, es[0], m);
      EventsReport(h, Enter(r, es[0], m), Visit(h, r, st, es[0], m).st, es[1..], past);
    }
  }

  /** An accepted log reports exactly these initial values. */
  lemma RunReports(h: Hash, memory: seq<Byte>, at: nat, end: nat, es: seq<Event>)
    requires Holds(memory, at, end, es) && Run(h, Reader(false, {}, 0), Fresh(), memory, at, end).ok
    ensures Run(h, Reader(false, {}, 0), Fresh(), memory, at, end).st.inits == Reports(false, {}, es, memory[end..])
  {
    hide Run, RunEvents, BytesOfEvents, Reports;
    RunVisits(h, Reader(false, {}, 0), Fresh(), memory, at, end, es);
    EventsReport(h, Reader(false, {}, 0), Fresh(), es, memory[end..]);
  }
}
