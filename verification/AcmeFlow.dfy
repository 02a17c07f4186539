/**
 ACME certificate management: the order flow with its DNS clean-up, loading from disk, and the
 renewal loop with its backoff. Remote parties answer from a script; every run is some script.
 */
module AcmeFlow {
  import opened Basics
  import Asn1Time
  import DerWalker

  const MIN_BACKOFF: nat := 3600
  const MAX_BACKOFF: nat := 86400
  const DEFAULT_WINDOW: nat := 30 * 86400

  type RecordId = string

  /** A leaf certificate, in DER. */
  type Certificate = Bytes

  datatype Status = ValidStatus | PendingStatus | OtherStatus

  /** What the provider makes of the TXT record, and the server of the readiness report. */
  datatype Challenge = Challenge(created: Option<RecordId>, readyAccepted: bool)

  datatype Authorization = FetchFailed | Authorization(status: Status, challenge: Option<Challenge>)

  datatype OrderStatus = Ready | NotReady

  /** The answers one run of the flow receives; absent or false means that step failed. */
  datatype Script = Script(
    account: bool, order: bool, authorizations: seq<Authorization>, deleteSucceeds: RecordId -> bool,
    polled: Option<OrderStatus>, finalized: bool, certificateFetched: bool,
    certificateSaved: bool, keySaved: bool, loaded: Option<Certificate>)

  datatype Act =
    | Create(id: RecordId)
    | Delete(id: RecordId)
    | Poll
    | Finalize
    | FetchCertificate
    | SaveCertificate
    | SaveKey
    | Serve(certificate: Certificate)

  // ----- What a script leads to -----

  /** The records created before authorization processing ends, in order. */
  function Obtained(auths: seq<Authorization>): seq<RecordId> {
    if |auths| == 0 then []
    else
      var a := auths[0];
      if a.FetchFailed? || a.status == OtherStatus then []
      else if a.status == ValidStatus then Obtained(auths[1..])
      else if a.challenge.None? || a.challenge.value.created.None? then []
      else [a.challenge.value.created.value] + (if a.challenge.value.readyAccepted then Obtained(auths[1..]) else [])
  }

  predicate Passes(a: Authorization) {
    a.Authorization? &&
    (a.status == ValidStatus ||
     (a.status == PendingStatus && a.challenge.Some? && a.challenge.value.created.Some? && a.challenge.value.readyAccepted))
  }

  predicate AllPass(auths: seq<Authorization>) { forall i :: 0 <= i < |auths| ==> Passes(auths[i]) }

  /** The cases in which an authorization lets the flow go on. */
  predicate Granted(a: Authorization) {
    match a
    case FetchFailed => false
    case Authorization(ValidStatus, _) => true
    case Authorization(PendingStatus, Some(Challenge(Some(_), true))) => true
    case _ => false
  }

  /** The cases in which a TXT record is created for an authorization. */
  predicate Creating(a: Authorization, id: RecordId) {
    match a
    case Authorization(PendingStatus, Some(Challenge(Some(created), _))) => created == id
    case _ => false
  }

  /**
   Processing passes exactly when every authorization is granted, and creates exactly the records
   of those that need one and have only granted ones before them.
   */
  lemma {:induction false} ObtainedExactly(auths: seq<Authorization>, id: RecordId)
    ensures AllPass(auths) <==> forall i :: 0 <= i < |auths| ==> Granted(auths[i])
    ensures id in Obtained(auths) <==>
            exists i :: 0 <= i < |auths| && Creating(auths[i], id) && forall j :: 0 <= j < i ==> Granted(auths[j])
  {
    assert forall a :: Passes(a) <==> Granted(a);
    hide Passes, Granted;
    if |auths| > 0 {
      var rest := auths[1..];
      ObtainedExactly(rest, id);
      FirstObtained(auths[0], id);
      assert forall i :: 1 <= i < |auths| ==> auths[i] == rest[i - 1];
      hide Creating;
      if i :| 0 <= i < |auths| && Creating(auths[i], id) && forall j :: 0 <= j < i ==> Granted(auths[j]) {
        if i > 0 {
          assert Creating(rest[i - 1], id);
          assert forall j :: 0 <= j < i - 1 ==> rest[j] == auths[j + 1];
        }
      }
      if i :| 0 <= i < |rest| && Creating(rest[i], id) && forall j :: 0 <= j < i ==> Granted(rest[j]) {
        assert Creating(auths[i + 1], id);
        if Granted(auths[0]) {
          assert forall j :: 0 <= j < i + 1 ==> Granted(auths[j]);
        }
      }
    }
  }

  lemma FirstObtained(a: Authorization, id: RecordId)
    ensures var ready := a.Authorization? && a.challenge.Some? && a.challenge.value.created.Some? &&
                         a.challenge.value.readyAccepted;
            Granted(a) <==> a.Authorization? && (a.status == ValidStatus || (a.status == PendingStatus && ready))
    ensures var created := if a.Authorization? && a.challenge.Some? then a.challenge.value.created else None;
            Creating(a, id) <==> a.Authorization? && a.status == PendingStatus && created == Some(id)
  {
  }

  /** Every step of the flow succeeds. */
  predicate Succeeds(s: Script) {
    s.account && s.order && AllPass(s.authorizations) && s.polled == Some(Ready) && s.finalized &&
    s.certificateFetched && s.certificateSaved && s.keySaved && s.loaded.Some?
  }

  function Creates(ids: seq<RecordId>): seq<Act> {
    seq(|ids|, i requires 0 <= i < |ids| => Create(ids[i]))
  }

  function Deletes(ids: seq<RecordId>): seq<Act> {
    seq(|ids|, i requires 0 <= i < |ids| => Delete(ids[i]))
  }

  /** Each created record is deleted as often as it was created, after all creations and before anything else. */
  ghost predicate CleansUp(t: seq<Act>) {
    && (forall id :: multiset(t)[Create(id)] == multiset(t)[Delete(id)])
    && (forall i, j :: 0 <= i < j < |t| && t[j].Create? ==> t[i].Create?)
    && (forall i, j :: 0 <= i < j < |t| && t[j].Delete? ==> t[i].Create? || t[i].Delete?)
  }

  lemma {:induction false} CreatesAndDeletesBalance(ids: seq<RecordId>, id: RecordId)
    ensures multiset(Creates(ids))[Create(id)] == multiset(Deletes(ids))[Delete(id)]
    ensures multiset(Creates(ids))[Delete(id)] == 0 && multiset(Deletes(ids))[Create(id)] == 0
  {
    if |ids| > 0 {
      CreatesAndDeletesBalance(ids[1..], id);
      assert Creates(ids) == [Create(ids[0])] + Creates(ids[1..]);
      assert Deletes(ids) == [Delete(ids[0])] + Deletes(ids[1..]);
    }
  }

  predicate OnlyLater(rest: seq<Act>) { forall i :: 0 <= i < |rest| ==> !rest[i].Create? && !rest[i].Delete? }

  /** Creations, then their deletions, then the remaining acts. */
  function InOrder(ids: seq<RecordId>, rest: seq<Act>): seq<Act> { Creates(ids) + Deletes(ids) + rest }

  lemma InOrderAt(ids: seq<RecordId>, rest: seq<Act>, i: nat)
    requires OnlyLater(rest) && i < |InOrder(ids, rest)|
    ensures InOrder(ids, rest)[i].Create? <==> i < |ids|
    ensures InOrder(ids, rest)[i].Delete? <==> |ids| <= i < 2 * |ids|
  {
  }

  lemma InOrderCounts(ids: seq<RecordId>, rest: seq<Act>, id: RecordId)
    requires OnlyLater(rest)
    ensures multiset(InOrder(ids, rest))[Create(id)] == multiset(ids)[id]
    ensures multiset(InOrder(ids, rest))[Delete(id)] == multiset(ids)[id]
  {
    hide Creates, Deletes;
    CreatesAndDeletesBalance(ids, id);
    CreatesCount(ids, id);
    assert Create(id) !in rest && Delete(id) !in rest;
  }

  lemma InOrderCleansUp(ids: seq<RecordId>, rest: seq<Act>)
    requires OnlyLater(rest)
    ensures CleansUp(InOrder(ids, rest))
    ensures forall id :: multiset(InOrder(ids, rest))[Create(id)] == multiset(ids)[id]
  {
    hide InOrder, OnlyLater;
    var t := InOrder(ids, rest);
    forall id
      ensures multiset(t)[Create(id)] == multiset(ids)[id] == multiset(t)[Delete(id)]
    {
      InOrderCounts(ids, rest, id);
    }
    forall i | 0 <= i < |t|
      ensures (t[i].Create? <==> i < |ids|) && (t[i].Delete? <==> |ids| <= i < 2 * |ids|)
    {
      InOrderAt(ids, rest, i);
    }
  }

  lemma {:induction false} CreatesCount(ids: seq<RecordId>, id: RecordId)
    ensures multiset(Creates(ids))[Create(id)] == multiset(ids)[id]
  {
    if |ids| > 0 {
      CreatesCount(ids[1..], id);
      assert Creates(ids) == [Create(ids[0])] + Creates(ids[1..]);
      assert ids == [ids[0]] + ids[1..];
    }
  }

  lemma NothingCreated(start: seq<Act>)
    ensures start[|start|..] == InOrder([], [])
  {
  }

  lemma TraceSuffix(start: seq<Act>, ids: seq<RecordId>, rest: seq<Act>, trace: seq<Act>)
    requires trace == start + Creates(ids) + Deletes(ids) + rest
    ensures start <= trace && trace[|start|..] == InOrder(ids, rest) && trace == start + InOrder(ids, rest)
  {
  }

  /** What the flow does after clean-up when every step succeeds, in this order. */
  function LaterActs(s: Script): seq<Act> {
    [Poll, Finalize, FetchCertificate, SaveCertificate, SaveKey] +
    (if s.loaded.Some? then [Serve(s.loaded.value)] else [])
  }

  /** How many of these acts are taken: the last one is the one that fails, if any does. */
  function Reached(s: Script): (n: nat)
    ensures 0 < n <= |LaterActs(s)|
  {
    if s.polled != Some(Ready) then 1
    else if !s.finalized then 2
    else if !s.certificateFetched then 3
    else if !s.certificateSaved then 4
    else if !s.keySaved || s.loaded.None? then 5
    else 6
  }

  /** Everything one run of the flow does. */
  function FlowTrace(s: Script): seq<Act> {
    if !s.account || !s.order then []
    else InOrder(Obtained(s.authorizations), if AllPass(s.authorizations) then LaterActs(s)[..Reached(s)] else [])
  }

  /** The new certificate is served at the end of a fully successful run and at no other time. */
  lemma ServesOnlyOnSuccess(s: Script)
    ensures Succeeds(s) <==> exists i :: 0 <= i < |FlowTrace(s)| && FlowTrace(s)[i].Serve?
    ensures Succeeds(s) ==> FlowTrace(s)[|FlowTrace(s)| - 1] == Serve(s.loaded.value)
  {
    hide Obtained, AllPass;
    var t := FlowTrace(s);
    if Succeeds(s) {
      assert t[|t| - 1] == LaterActs(s)[5];
    }
  }

  // ----- Remaining lifetime -----

  /** `cert_time_remaining`: absent when the certificate does not parse or has expired. */
  function Remaining(certificate: Certificate, now: nat): Option<nat> {
    var expiry := DerWalker.NotAfter(certificate);
    if expiry.None? || expiry.value * NANOS < now then None else Some(expiry.value * NANOS - now)
  }

  /** The certificate's notAfter lies more than `window` after `now`. */
  predicate Outlives(certificate: Certificate, now: nat, window: nat) {
    var expiry := DerWalker.NotAfter(certificate);
    expiry.Some? && expiry.value * 1_000_000_000 > now + window
  }

  /** Comparing the remaining lifetime with the window is comparing notAfter with the window's end. */
  lemma RemainingExceedsExactlyWhen(certificate: Certificate, now: nat, window: nat)
    ensures Remaining(certificate, now).Some? && Remaining(certificate, now).value > window <==>
            Outlives(certificate, now, window)
  {
    hide DerWalker.NotAfter;
  }

  /** End to end: a printed certificate outlives the window exactly when its printed notAfter time does. */
  lemma PrintedCertificateOutlives(c: DerWalker.Certificate, t: Asn1Time.Timestamp, now: nat, window: nat)
    requires var n := c.fields.validity.notAfter;
             c.Valid() && Asn1Time.Printable(n.tag, t) && n.content == Asn1Time.Print(n.tag, t)
    ensures Outlives(c.Encode(), now, window) <==> Asn1Time.UnixSeconds(t) * 1_000_000_000 > now + window
  {
    DerWalker.ExpiryIsPrintedTime(c, t);
    hide DerWalker.NotAfter, Asn1Time.UnixSeconds, Asn1Time.Print, Asn1Time.Printable;
  }

  // ----- The manager -----

  class AcmeManager {
    var served: Certificate
    var trace: seq<Act>
    var backoff: nat
    /** How each renewal round so far ended. */
    ghost var history: seq<RoundOutcome>

    /** The backoff is determined by the failures since the last success or healthy check. */
    ghost predicate Valid()
      reads this
    {
      backoff == CappedBackoff(TrailingFailures(history))
    }

    constructor (initial: Certificate)
      ensures Valid() && served == initial && trace == [] && history == []
    {
      served := initial;
      trace := [];
      backoff := MIN_BACKOFF;
      history := [];
    }

    /** `process_authorizations`: stops at the first failure, having pushed every record it created. */
    method ProcessAuthorizations(auths: seq<Authorization>) returns (ok: bool, ids: seq<RecordId>)
      modifies this`trace
      ensures ids == Obtained(auths) && ok == AllPass(auths)
      ensures trace == old(trace) + Creates(ids)
    {
      ids := [];
      assert auths[0..] == auths;
      for i := 0 to |auths|
        invariant Obtained(auths) == ids + Obtained(auths[i..])
        invariant trace == old(trace) + Creates(ids)
        invariant AllPass(auths[..i])
      {
        assert auths[i..][0] == auths[i] && auths[i..][1..] == auths[i + 1..];
        var a := auths[i];
        if a.FetchFailed? || a.status == OtherStatus {
          assert !Passes(auths[i]);
          return false, ids;
        }
        if a.status == ValidStatus {
          assert auths[..i + 1] == auths[..i] + [a];
          continue;
        }
        if a.challenge.None? || a.challenge.value.created.None? {
          assert !Passes(auths[i]);
          return false, ids;
        }
        var id := a.challenge.value.created.value;
        trace := trace + [Create(id)];
        ids := ids + [id];
        assert Creates(ids) == Creates(ids[..|ids| - 1]) + [Create(id)];
        if !a.challenge.value.readyAccepted {
          assert !Passes(auths[i]);
          return false, ids;
        }
        assert auths[..i + 1] == auths[..i] + [a];
      }
      assert auths[..|auths|] == auths;
      ok := true;
    }

    /** The clean-up loop; a failed deletion is only logged. */
    method DeleteRecords(ids: seq<RecordId>, deleteSucceeds: RecordId -> bool) returns (warnings: nat)
      modifies this`trace
      ensures trace == old(trace) + Deletes(ids)
    {
      warnings := 0;
      for i := 0 to |ids|
        invariant trace == old(trace) + Deletes(ids[..i])
      {
        trace := trace + [Delete(ids[i])];
        assert Deletes(ids[..i + 1]) == Deletes(ids[..i]) + [Delete(ids[i])];
        if !deleteSucceeds(ids[i]) {
          warnings := warnings + 1;
        }
      }
      assert ids[..|ids|] == ids;
    }

    /** The part of the flow after clean-up. */
    method FinishOrder(s: Script) returns (ok: bool, ghost rest: seq<Act>)
      requires AllPass(s.authorizations) && s.account && s.order
      modifies this`trace, this`served
      ensures ok == Succeeds(s)
      ensures rest == LaterActs(s)[..Reached(s)]
      ensures trace == old(trace) + rest && OnlyLater(rest)
      ensures if ok then served == s.loaded.value else served == old(served)
    {
      ok, rest := false, [Poll];
      trace := trace + [Poll];
      if s.polled != Some(Ready) { return; }
      trace, rest := trace + [Finalize], rest + [Finalize];
      if !s.finalized { return; }
      trace, rest := trace + [FetchCertificate], rest + [FetchCertificate];
      if !s.certificateFetched { return; }
      trace, rest := trace + [SaveCertificate], rest + [SaveCertificate];
      if !s.certificateSaved { return; }
      trace, rest := trace + [SaveKey], rest + [SaveKey];
      if !s.keySaved || s.loaded.None? { return; }
      trace, rest := trace + [Serve(s.loaded.value)], rest + [Serve(s.loaded.value)];
      served := s.loaded.value;
      ok := true;
    }

    /**
     `run_acme_flow`. Whatever step fails, what this run added to the trace cleans up after itself,
     and the served certificate changes only after full success.
     */
    method RunFlow(s: Script) returns (ok: bool)
      modifies this`trace, this`served
      ensures ok == Succeeds(s)
      ensures trace == old(trace) + FlowTrace(s)
      ensures old(trace) <= trace && CleansUp(trace[|old(trace)|..])
      ensures if ok then served == s.loaded.value else served == old(served)
      ensures s.account && s.order ==>
                forall id :: multiset(trace[|old(trace)|..])[Create(id)] == multiset(Obtained(s.authorizations))[id]
    {
      hide CleansUp, Obtained, Creates, Deletes, InOrder, LaterActs, Reached, AllPass;
      ghost var start := trace;
      ghost var rest: seq<Act> := [];
      ok := false;
      if !s.account || !s.order {
        NothingCreated(trace);
        InOrderCleansUp([], []);
        return;
      }
      var processed, ids := ProcessAuthorizations(s.authorizations);
      var _ := DeleteRecords(ids, s.deleteSucceeds);
      if processed {
        ok, rest := FinishOrder(s);
      }
      TraceSuffix(start, ids, rest, trace);
      InOrderCleansUp(ids, rest);
    }

    /** `obtain_or_load_certificate`: a healthy certificate on disk is served, else the flow runs. */
    method ObtainOrLoad(onDisk: Option<Certificate>, window: Option<nat>, now: nat, s: Script) returns (ok: bool)
      modifies this`trace, this`served
      ensures onDisk.Some? && window.None? ==> !ok && served == old(served) && trace == old(trace)
      ensures var healthy := onDisk.Some? && window.Some? && Outlives(onDisk.value, now, window.value);
              && (healthy ==> ok && served == onDisk.value && trace == old(trace))
              && (!healthy && (onDisk.None? || window.Some?) ==>
                    && ok == Succeeds(s) && old(trace) <= trace && CleansUp(trace[|old(trace)|..])
                    && served == if ok then s.loaded.value else old(served))
    {
      hide Remaining, CleansUp, Outlives, FlowTrace;
      if onDisk.Some? {
        if window.None? { return false; }
        RemainingExceedsExactlyWhen(onDisk.value, now, window.value);
        var remaining := Remaining(onDisk.value, now);
        if remaining.Some? && remaining.value > window.value {
          served := onDisk.value;
          return true;
        }
      }
      ok := RunFlow(s);
    }

    /** One round of the renewal task; `slept` is the backoff it waits for after a failure. */
    method RenewalRound(window: Option<nat>, now: nat, s: Script) returns (slept: Option<nat>)
      requires Valid()
      modifies this
      ensures Valid()
      ensures var w := if window.Some? then window.value else 30 * 24 * 3600 * 1_000_000_000;
              var needed := !Outlives(old(served), now, w);
              && (!needed ==> slept.None? && history == old(history) + [Healthy] && served == old(served) && trace == old(trace))
              && (needed && Succeeds(s) ==>
                    slept.None? && history == old(history) + [Renewed] && served == s.loaded.value)
              && (needed && !Succeeds(s) ==>
                    && slept == Some(CappedBackoff(TrailingFailures(old(history))))
                    && history == old(history) + [RenewalFailed] && served == old(served))
              && (needed ==> old(trace) <= trace && CleansUp(trace[|old(trace)|..]))
    {
      hide Remaining, CleansUp, Succeeds, CappedBackoff, TrailingFailures, Power2, Outlives, FlowTrace;
      OneMoreRound(history);
      var w := if window.Some? then window.value else DEFAULT_WINDOW * NANOS;
      RemainingExceedsExactlyWhen(served, now, w);
      var remaining := Remaining(served, now);
      if remaining.Some? && remaining.value > w {
        backoff, history := MIN_BACKOFF, history + [Healthy];
        return None;
      }
      var ok := RunFlow(s);
      if ok {
        backoff, history := MIN_BACKOFF, history + [Renewed];
        return None;
      }
      slept := Some(backoff);
      backoff, history := Min(backoff * 2, MAX_BACKOFF), history + [RenewalFailed];
    }
  }

  // ----- Backoff over whole histories -----

  function Power2(n: nat): (p: nat)
    ensures p > 0
  {
    if n == 0 then 1 else 2 * Power2(n - 1)
  }

  function CappedBackoff(failures: nat): nat { Min(MIN_BACKOFF * Power2(failures), MAX_BACKOFF) }

  datatype RoundOutcome = Healthy | Renewed | RenewalFailed

  /** Failures since the last renewal or healthy check. */
  function TrailingFailures(history: seq<RoundOutcome>): nat {
    if |history| == 0 || history[|history| - 1] != RenewalFailed then 0
    else TrailingFailures(history[..|history| - 1]) + 1
  }

  lemma OneMoreRound(history: seq<RoundOutcome>)
    ensures CappedBackoff(TrailingFailures(history + [Healthy])) == MIN_BACKOFF
    ensures CappedBackoff(TrailingFailures(history + [Renewed])) == MIN_BACKOFF
    ensures CappedBackoff(TrailingFailures(history + [RenewalFailed])) ==
            Min(CappedBackoff(TrailingFailures(history)) * 2, MAX_BACKOFF)
  {
    assert (history + [RenewalFailed])[..|history|] == history;
  }

  /** Exactly the last `TrailingFailures` rounds failed. */
  lemma {:induction false} TrailingFailuresCount(history: seq<RoundOutcome>)
    ensures var n := TrailingFailures(history);
            && n <= |history|
            && (forall i :: |history| - n <= i < |history| ==> history[i] == RenewalFailed)
            && (n < |history| ==> history[|history| - n - 1] != RenewalFailed)
  {
    if |history| > 0 && history[|history| - 1] == RenewalFailed {
      var front := history[..|history| - 1];
      TrailingFailuresCount(front);
      forall i | |history| - TrailingFailures(history) <= i < |history|
        ensures history[i] == RenewalFailed
      {
        assert i == |history| - 1 || history[i] == front[i];
      }
    }
  }

  /** The wait doubles with each failure, never shrinks, and reaches its cap at the fifth. */
  lemma {:induction false} BackoffIsCappedExponential(k: nat)
    ensures CappedBackoff(0) == 3600
    ensures CappedBackoff(k + 1) == Min(2 * CappedBackoff(k), 86400)
    ensures 3600 <= CappedBackoff(k) <= CappedBackoff(k + 1) <= 86400
    ensures CappedBackoff(k) == 86400 <==> k >= 5
  {
    if k > 0 {
      BackoffIsCappedExponential(k - 1);
      if k == 5 {
        assert Power2(4) == 16;
      }
    }
  }
}
