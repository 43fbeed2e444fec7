/** struct timeval (util.c, util.h), where {0, 0} stands for never. */
module Times {
  import opened Common

  datatype Time = Time(sec: nat, usec: nat)

  const NEVER := Time(0, 0)

  predicate Proper(t: Time) { t.usec < 1_000_000 }

  function Micros(t: Time): nat { t.sec * 1_000_000 + t.usec }

  /** timeval_compare */
  function Compare(s1: Time, s2: Time): int {
    if s1.sec < s2.sec then -1
    else if s1.sec > s2.sec then 1
    else if s1.usec < s2.usec then -1
    else if s1.usec > s2.usec then 1
    else 0
  }

  lemma CompareIsOrder(s1: Time, s2: Time)
    requires Proper(s1) && Proper(s2)
    ensures Compare(s1, s2) < 0 <==> Micros(s1) < Micros(s2)
    ensures Compare(s1, s2) == 0 <==> s1 == s2
    ensures Compare(s1, s2) > 0 <==> Micros(s1) > Micros(s2)
  {
  }

  /** timeval_add_msec */
  function AddMsec(s: Time, msecs: nat): Time {
    var usecs := s.usec + msecs % 1000 * 1000;
    if usecs < 1_000_000 then Time(s.sec + msecs / 1000, usecs)
    else Time(s.sec + msecs / 1000 + 1, usecs - 1_000_000)
  }

  lemma AddMsecAdds(s: Time, msecs: nat)
    requires Proper(s)
    ensures Proper(AddMsec(s, msecs)) && Micros(AddMsec(s, msecs)) == Micros(s) + 1000 * msecs
    ensures AddMsec(s, msecs).sec >= s.sec
  {
  }

  /** timeval_min: the earlier of two times, one of which may be never. */
  function Earlier(d: Time, s: Time): Time {
    if s.sec == 0 then d
    else if d.sec == 0 || Compare(d, s) > 0 then s
    else d
  }

  /** timeval_minus_msec */
  function MinusMsec(s1: Time, s2: Time): int {
    if s1.sec < s2.sec then 0
    else if s1.sec - s2.sec > 2_000_000 then 2_000_000_000
    else if s1.sec > s2.sec then (s1.sec - s2.sec) * 1000 + Quotient(s1.usec - s2.usec, 1000)
    else if s1.usec <= s2.usec then 0
    else (s1.usec - s2.usec) / 1000
  }

  /** It is the difference to less than a millisecond either way, within three weeks; rounding may be up. */
  lemma MinusMsecIsDifference(s1: Time, s2: Time)
    requires Proper(s1) && Proper(s2) && Compare(s1, s2) >= 0 && s1.sec - s2.sec <= 2_000_000
    ensures -1000 < Micros(s1) - Micros(s2) - 1000 * MinusMsec(s1, s2) < 1000
  {
  }

  /** It is 0 before the other time, and two billion after three weeks. */
  lemma MinusMsecOutside(s1: Time, s2: Time)
    requires Proper(s1) && Proper(s2)
    ensures Compare(s1, s2) <= 0 ==> MinusMsec(s1, s2) == 0
    ensures s1.sec - s2.sec > 2_000_000 ==> MinusMsec(s1, s2) == 2_000_000_000
    ensures s1.usec == s2.usec && 0 <= s1.sec - s2.sec <= 2_000_000 ==> MinusMsec(s1, s2) == 1000 * (s1.sec - s2.sec)
  {
  }
}

/** Requests and updates that are sent again until they are answered (resend.c). */
module Resend {
  import opened Common
  import opened Times
  import Seqno

  const REQUEST_TIMEOUT := 65000
  const RESEND_MAX := 3

  datatype Kind = Request | Update

  /** struct resend. `max` is an unsigned char. */
  datatype Entry = Entry(kind: Kind, prefix: seq<U8>, plen: U8, srcPrefix: seq<U8>, srcPlen: U8, id: seq<U8>,
                         seqno: U16, delay: U16, max: U8, time: Time, ifp: Option<nat>)

  /** resend_match */
  predicate Match(a: Entry, b: Entry) {
    a.kind == b.kind && a.plen == b.plen && a.prefix == b.prefix && a.srcPlen == b.srcPlen && a.srcPrefix == b.srcPrefix
  }

  /** resend_expired */
  predicate Expired(e: Entry, now: Time) {
    if e.kind.Request? then MinusMsec(now, e.time) >= REQUEST_TIMEOUT else e.max == 0
  }

  /** A request is kept for 65 seconds, to the millisecond; an update until it has no tries left. */
  lemma ExpiredExactly(e: Entry, now: Time)
    requires Proper(e.time) && Proper(now)
    ensures e.kind.Update? ==> (Expired(e, now) <==> e.max <= 0)
    ensures e.kind.Request? && Micros(now) >= Micros(e.time) + 65_001_000 ==> Expired(e, now)
    ensures e.kind.Request? && Micros(now) <= Micros(e.time) + 64_999_000 ==> !Expired(e, now)
    ensures e.kind.Request? && now == Time(e.time.sec + 65, e.time.usec) ==> Expired(e, now)
  {
    if Times.Compare(now, e.time) >= 0 && now.sec - e.time.sec <= 2_000_000 {
      MinusMsecIsDifference(now, e.time);
    }
    MinusMsecOutside(now, e.time);
    CompareIsOrder(now, e.time);
    hide MinusMsec;
  }

  /** What do_resend will still send. */
  predicate Pending(e: Entry, now: Time) { !Expired(e, now) && e.delay > 0 && e.max > 0 }

  function Deadline(e: Entry): Time { AddMsec(e.time, e.delay) }

  /** There is one entry of a kind for each prefix pair. */
  ghost predicate Unique(s: seq<Entry>) {
    forall i, j :: 0 <= i < j < |s| ==> !Match(s[i], s[j])
  }

  ghost predicate Dated(s: seq<Entry>) { forall i :: 0 <= i < |s| ==> Proper(s[i].time) }

  /** Entries carry real times; only those that satisfy_request marked have none, and they are not sent again. */
  ghost predicate Timed(s: seq<Entry>, now: Time) { forall i :: 0 <= i < |s| ==> TimedEntry(s[i], now) }

  predicate TimedEntry(e: Entry, now: Time) {
    e.time.sec == 0 ==> e.max == 0 || (e.kind.Request? && Expired(e, now))
  }

  /** Time does not make it worse. */
  lemma TimedLater(s: seq<Entry>, now: Time, later: Time)
    requires Dated(s) && Timed(s, now) && Proper(now) && Proper(later) && Times.Compare(now, later) <= 0
    ensures Timed(s, later)
  {
    forall i | 0 <= i < |s| ensures TimedEntry(s[i], later) {
      ExpiredStays(s[i], now, later);
    }
  }

  lemma ExpiredStays(e: Entry, now: Time, later: Time)
    requires Proper(e.time) && Proper(now) && Proper(later) && Times.Compare(now, later) <= 0
    ensures Expired(e, now) ==> Expired(e, later)
  {
  }

  /** None of the first `n` entries that is pending is due before `t`. */
  ghost predicate NotLate(s: seq<Entry>, n: nat, now: Time, t: Time)
    requires n <= |s|
  {
    forall i :: 0 <= i < n ==> Covers(t, s[i], now)
  }

  /** An entry that is pending is not due before `t`. */
  predicate Covers(t: Time, e: Entry, now: Time) {
    Pending(e, now) ==> t.sec != 0 && Micros(t) <= Micros(Deadline(e))
  }

  /** `t` is the first deadline of those that are pending, never if none is. */
  ghost predicate IsNext(s: seq<Entry>, n: nat, now: Time, t: Time)
    requires n <= |s|
  {
    && Proper(t) && NotLate(s, n, now, t)
    && (t == NEVER || (t.sec != 0 && exists i :: 0 <= i < n && Pending(s[i], now) && Deadline(s[i]) == t))
  }

  /** timeval_min keeps the first of the deadlines. */
  lemma EarlierIsNext(s: seq<Entry>, n: nat, now: Time, t: Time)
    requires n < |s| && Dated(s) && TimedEntry(s[n], now) && IsNext(s, n, now, t)
    ensures IsNext(s, n + 1, now, if Pending(s[n], now) then Earlier(t, Deadline(s[n])) else t)
  {
    hide Expired, Times.Compare, AddMsec, Pending, Earlier, Deadline, TimedEntry, Dated;
    if Pending(s[n], now) {
      var d := Deadline(s[n]);
      var e := Earlier(t, d);
      PendingDeadline(s, n, now);
      EarlierOf(t, d);
      forall i | 0 <= i < n + 1 ensures Covers(e, s[i], now) {
        assert i < n ==> Covers(t, s[i], now);
      }
    }
  }

  lemma PendingDeadline(s: seq<Entry>, n: nat, now: Time)
    requires n < |s| && Dated(s) && TimedEntry(s[n], now) && Pending(s[n], now)
    ensures Proper(Deadline(s[n])) && Deadline(s[n]).sec != 0
  {
    AddMsecAdds(s[n].time, s[n].delay);
    hide AddMsec;
  }

  /** The earlier of a time or never, and a time. */
  lemma EarlierOf(t: Time, d: Time)
    requires Proper(t) && Proper(d) && d.sec != 0
    ensures var e := Earlier(t, d);
            && e in {t, d} && Proper(e) && e.sec != 0 && Micros(e) <= Micros(d)
            && (t.sec == 0 ==> e == d) && (t.sec != 0 ==> Micros(e) <= Micros(t))
  {
    CompareIsOrder(t, d);
  }

  /** A new deadline is taken into account. */
  lemma EarlierNotLate(s: seq<Entry>, u: seq<Entry>, i: nat, now: Time, t: Time)
    requires |u| == |s| && i < |s| && Proper(t) && Proper(u[i].time) && u[i].time.sec > 0
    requires forall j :: 0 <= j < |s| && j != i ==> u[j] == s[j]
    requires NotLate(s, |s|, now, t)
    ensures NotLate(u, |u|, now, Earlier(t, Deadline(u[i])))
    ensures NotLate(u, |u|, now, t) <==> Covers(t, u[i], now)
  {
    var d := Deadline(u[i]);
    AddMsecAdds(u[i].time, u[i].delay);
    CompareIsOrder(t, d);
    hide Expired, Times.Compare, AddMsec;
    forall j | 0 <= j < |u| ensures Covers(Earlier(t, d), u[j], now) {
      assert j != i ==> u[j] == s[j];
    }
  }

  /** The surviving entries, in order. */
  function Alive(s: seq<Entry>, n: nat, now: Time): seq<Entry>
    requires n <= |s|
  {
    if n == 0 then []
    else if Expired(s[n - 1], now) then Alive(s, n - 1, now)
    else Alive(s, n - 1, now) + [s[n - 1]]
  }

  lemma {:induction false} AliveExactly(s: seq<Entry>, n: nat, now: Time)
    requires n <= |s|
    ensures forall e :: e in Alive(s, n, now) <==> !Expired(e, now) && exists i :: 0 <= i < n && s[i] == e
  {
    hide Expired;
    if n > 0 {
      AliveExactly(s, n - 1, now);
    }
  }

  lemma {:induction false} AliveLength(s: seq<Entry>, n: nat, now: Time)
    requires n <= |s|
    ensures |Alive(s, n, now)| <= n
    ensures |Alive(s, n, now)| == n ==> Alive(s, n, now) == s[..n]
  {
    hide Expired;
    if n > 0 {
      AliveLength(s, n - 1, now);
      assert s[..n] == s[..n - 1] + [s[n - 1]];
    }
  }

  lemma {:induction false} AliveUnique(s: seq<Entry>, n: nat, now: Time)
    requires n <= |s| && Unique(s) && Dated(s)
    ensures Unique(Alive(s, n, now)) && Dated(Alive(s, n, now))
    ensures Timed(s, now) ==> Timed(Alive(s, n, now), now)
  {
    hide Expired, Match, TimedEntry;
    if n > 0 {
      AliveUnique(s, n - 1, now);
      AliveExactly(s, n - 1, now);
      var before := Alive(s, n - 1, now);
      forall k | 0 <= k < |before| ensures !Match(before[k], s[n - 1]) {
        assert before[k] in before;
      }
    }
  }

  /** The list is kept in order, with exactly the expired entries gone. */
  lemma AliveKeeps(s: seq<Entry>, n: nat, now: Time)
    requires n <= |s| && Unique(s) && Dated(s)
    ensures Unique(Alive(s, n, now)) && Dated(Alive(s, n, now)) && |Alive(s, n, now)| <= n
    ensures Timed(s, now) ==> Timed(Alive(s, n, now), now)
    ensures forall e :: e in Alive(s, n, now) <==> !Expired(e, now) && exists i :: 0 <= i < n && s[i] == e
    ensures |Alive(s, n, now)| == n ==> Alive(s, n, now) == s[..n]
    ensures n == |s| && |Alive(s, n, now)| == n ==> Alive(s, n, now) == s
  {
    AliveUnique(s, n, now);
    AliveExactly(s, n, now);
    AliveLength(s, n, now);
    hide Unique, Dated, Timed, Alive, Expired;
  }

  // ---- satisfy_request

  /** An answered request is marked as expired. */
  function Mark(e: Entry): Entry { e.(max := 0, time := Time(0, e.time.usec)) }

  /** An update that is about to be sent or was heard on `ifp` is what the entry asks for. */
  predicate Answered(x: Entry, e: Entry, ifp: Option<nat>) {
    Match(x, e) && (ifp.None? || x.ifp == ifp) && !(x.id == e.id && Seqno.Compare(x.seqno, e.seqno) > 0)
  }

  /** In terms of numbers that do not wrap: an update with the number asked for, or a newer one, is an answer, and any
      of another router is. A request is superseded by one for a newer number of the same router. */
  lemma AnsweredMeans(x: Entry, e: Entry, ifp: Option<nat>, asked: int, heard: int)
    requires x.seqno == Seqno.Wire(asked) && e.seqno == Seqno.Wire(heard) && -0x8000 < asked - heard < 0x8000
    ensures Answered(x, e, ifp) <==>
              && x.kind == e.kind && x.prefix == e.prefix && x.plen == e.plen
              && x.srcPrefix == e.srcPrefix && x.srcPlen == e.srcPlen
              && (ifp == None || x.ifp == ifp) && (x.id != e.id || heard >= asked)
    ensures forall id :: Superseded(x, id, e.seqno) <==> id == Some(x.id) && asked > heard
  {
    Seqno.CompareInWindow(asked, heard);
  }

  // ---- record_resend

  /** A newer sequence number is already asked for. */
  predicate Superseded(e: Entry, id: Option<seq<U8>>, seqno: U16) {
    id == Some(e.id) && Seqno.Compare(e.seqno, seqno) > 0
  }

  /** What record_resend makes of the entry that it finds. */
  function Touched(e: Entry, id: Option<seq<U8>>, seqno: U16, ifp: Option<nat>, delay: U16, now: Time): Entry {
    var sooner := if e.delay != 0 && delay != 0 then Min(e.delay, delay) else if delay != 0 then delay else e.delay;
    var waiting := e.(delay := sooner, time := now, max := RESEND_MAX);
    if Superseded(e, id, seqno) then waiting
    else waiting.(id := match id case Some(x) => x case None => [0, 0, 0, 0, 0, 0, 0, 0], seqno := seqno,
                  ifp := if e.ifp != ifp then None else e.ifp)
  }

  /** The shorter of the two delays counts, 0 being none; the entry starts afresh, with three tries; it asks for what
      is asked for now, of all interfaces if they differ, unless a newer number of the same router is already asked
      for. */
  lemma TouchedMeans(e: Entry, id: Option<seq<U8>>, seqno: U16, ifp: Option<nat>, delay: U16, now: Time)
    ensures var t, newer := Touched(e, id, seqno, ifp, delay, now), Superseded(e, id, seqno);
            && t.time == now && t.max == 3 && Match(t, e)
            && (t.delay == 0 <==> e.delay == 0 && delay == 0)
            && (e.delay > 0 ==> t.delay <= e.delay) && (delay > 0 ==> t.delay <= delay)
            && t.delay in {e.delay, delay}
            && (newer ==> t.id == e.id && t.seqno == e.seqno && t.ifp == e.ifp)
            && (!newer ==> t.seqno == seqno && (if e.ifp == ifp then t.ifp == ifp else t.ifp == None))
            && (!newer ==> t.id == match id case Some(x) => x case None => seq(8, _ => 0))
  {
  }

  /** An entry that was just recorded is pending if it has a delay. */
  lemma TouchedIsPending(e: Entry, id: Option<seq<U8>>, seqno: U16, ifp: Option<nat>, delay: U16, now: Time)
    ensures var t := Touched(e, id, seqno, ifp, delay, now);
            && Match(t, e) && t.time == now && (Pending(t, now) <==> t.delay > 0)
  {
  }

  /** Recording an older request again makes an entry pending that no timer is set for: whatever the entry, if it
      had been sent for the last time and no other is waiting, it is not sent again. */
  lemma ForgottenResend(e: Entry, id: Option<seq<U8>>, seqno: U16, ifp: Option<nat>, delay: U16, now: Time)
    requires Superseded(e, id, seqno) && e.max == 0 && delay > 0
    ensures IsNext([e], 1, now, NEVER)
    ensures !NotLate([Touched(e, id, seqno, ifp, delay, now)], 1, now, NEVER)
  {
    TouchedIsPending(e, id, seqno, ifp, delay, now);
    var t := Touched(e, id, seqno, ifp, delay, now);
    assert [t][0] == t && Pending([t][0], now);
  }

  // ---- do_resend

  predicate Due(e: Entry, now: Time) {
    Pending(e, now) && Times.Compare(now, Deadline(e)) >= 0
  }

  /** An entry after it was sent once more; `max` may wrap. */
  function Again(e: Entry): Entry { e.(delay := Min(0xFFFF, e.delay * 2), max := (e.max + 255) % 256) }

  /** When sending has answered a request: before its turn in the list, while it was sent itself, or later. */
  datatype Answers = Answers(before: bool, during: bool, after: bool)

  const UNANSWERED := Answers(false, false, false)

  /** The entry when its turn comes. */
  function Early(e: Entry, a: Answers): Entry { if a.before then Mark(e) else e }

  /** The entry when do_resend has passed the whole list. */
  function Passed(e: Entry, now: Time, a: Answers): Entry {
    var e1 := Early(e, a);
    var e2 := if Due(e1, now) then Again(if a.during then Mark(e1) else e1) else e1;
    if a.after then Mark(e2) else e2
  }

  /** The entries that are sent: those that are due and have not been answered before their turn. */
  function Sent(s: seq<Entry>, answers: seq<Answers>, n: nat, now: Time): seq<Entry>
    requires n <= |s| == |answers|
  {
    if n == 0 then []
    else if Due(s[n - 1], now) && !answers[n - 1].before then Sent(s, answers, n - 1, now) + [s[n - 1]]
    else Sent(s, answers, n - 1, now)
  }

  predicate IsAnswered(e: Entry, now: Time, a: Answers) { a.before || a.after || (a.during && Due(e, now)) }

  /** Answered by its own sending, and then counted down from 0 to 255, at a time when the mark is not yet taken as
      expired. */
  predicate Rearmed(e: Entry, now: Time, a: Answers) {
    Due(Early(e, a), now) && a.during && !a.after && !Expired(Mark(e), now)
  }

  /** Unless it is rearmed, an answered request is never sent again; if it is, it is pending with 255 tries. */
  lemma AnsweredIsOver(e: Entry, now: Time, a: Answers, later: Time)
    requires e.kind.Request? && TimedEntry(e, now) && IsAnswered(e, now, a)
    requires Proper(e.time) && Proper(now) && Proper(later) && Times.Compare(now, later) <= 0
    ensures Rearmed(e, now, a) <==> Pending(Passed(e, now, a), now)
    ensures Rearmed(e, now, a) ==> Passed(e, now, a).max == 255
    ensures !Rearmed(e, now, a) ==> !Pending(Passed(e, now, a), later)
  {
    ExpiredStays(Mark(e), now, later);
    hide Deadline, Times.Compare;
  }

  /** What an unanswered entry becomes that is due: the delay doubles, up to its limit, and a try is gone; nothing else
      changes, so that the time of the first one counts for all. An entry is due if it has not expired, has a delay and
      a try left, and the delay is over. */
  lemma ResentMeans(e: Entry, now: Time)
    requires Proper(e.time) && Proper(now)
    ensures Due(e, now) <==>
              !Expired(e, now) && e.delay > 0 && e.max > 0 && Micros(now) >= Micros(e.time) + 1000 * e.delay
    ensures Due(e, now) ==>
              var t := Passed(e, now, UNANSWERED);
              && t.delay == (if e.delay < 0x8000 then 2 * e.delay else 0xFFFF) && t.max == e.max - 1
              && t == e.(delay := t.delay, max := t.max)
    ensures !Due(e, now) ==> Passed(e, now, UNANSWERED) == e
  {
    AddMsecAdds(e.time, e.delay);
    CompareIsOrder(now, Deadline(e));
  }

  /** The clock starts when the machine does: 65 seconds later no request is rearmed. */
  lemma RearmedWhen(e: Entry, now: Time)
    requires e.kind.Request? && Proper(e.time) && Proper(now)
    ensures now.sec >= 66 ==> Expired(Mark(e), now)
    ensures now.sec < 65 ==> !Expired(Mark(e), now)
  {
  }

  /** The timer once it covers an entry, which needs none without a delay. */
  function WithTimer(t: Time, e: Entry): Time { if e.delay == 0 then t else Earlier(t, Deadline(e)) }

  class Table {
    var list: seq<Entry>
    var next: Time

    ghost predicate Valid()
      reads this
    {
      Unique(list) && Dated(list) && Proper(next)
    }

    constructor ()
      ensures Valid() && list == [] && next == NEVER
    {
      list, next := [], NEVER;
    }

    /** find_resend: the index of the entry for the same kind and prefix pair, or -1. */
    method FindResend(e: Entry) returns (i: int)
      ensures i >= 0 ==> i < |list| && Match(list[i], e)
      ensures i < 0 ==> i == -1 && forall j :: 0 <= j < |list| ==> !Match(list[j], e)
    {
      i := 0;
      while i < |list|
        invariant 0 <= i <= |list| && forall j :: 0 <= j < i ==> !Match(list[j], e)
      {
        if Match(list[i], e) {
          return;
        }
        i := i + 1;
      }
      return -1;
    }

    /** record_resend, for the entry `e` without a timeout; `filtered` is the answer of the filters. An entry for the
        same kind and prefix pair is brought up to date, otherwise one is added in front. If nothing that was
        pending was late, nothing is, but for an entry that is brought up to date by an older request. */
    method RecordResend(e: Entry, id: Option<seq<U8>>, filtered: bool, wait: nat, now: Time) returns (recorded: bool)
      requires Valid() && Proper(now) && now.sec > 0
      requires e.time == now && e.max == RESEND_MAX && e.delay == Min(wait, 0xFFFF) && (id == Some(e.id) || id == None)
      modifies this
      ensures Valid() && (old(Timed(list, now)) ==> Timed(list, now))
      ensures filtered ==> list == old(list) && next == old(next) && !recorded
      ensures !filtered && (forall j :: 0 <= j < |old(list)| ==> !Match(old(list)[j], e)) ==>
                recorded && list == [e] + old(list) && next == WithTimer(old(next), e)
      ensures forall i :: !filtered && 0 <= i < |old(list)| && Match(old(list)[i], e) ==>
                && list == old(list)[i := Touched(old(list)[i], id, e.seqno, e.ifp, e.delay, now)]
                && recorded == !Superseded(old(list)[i], id, e.seqno)
                && next == if recorded then WithTimer(old(next), list[i]) else old(next)
      ensures recorded && old(NotLate(list, |list|, now, next)) ==> NotLate(list, |list|, now, next)
      ensures forall i :: !filtered && 0 <= i < |old(list)| && Match(old(list)[i], e)
                          && old(NotLate(list, |list|, now, next)) ==>
                (NotLate(list, |list|, now, next) <==> recorded || Covers(next, list[i], now))
    {
      recorded := false;
      if filtered {
        return;
      }
      var i := FindResend(e);
      ghost var was := list;
      if i >= 0 {
        OnlyMatch(i, e);
        recorded := Refresh(i, e, id, now);
      } else {
        Add(e, now);
        recorded := true;
      }
    }

    lemma OnlyMatch(i: nat, e: Entry)
      requires Unique(list) && i < |list| && Match(list[i], e)
      ensures forall j :: 0 <= j < |list| && Match(list[j], e) ==> j == i
    {
    }

    method Refresh(i: nat, e: Entry, id: Option<seq<U8>>, now: Time) returns (recorded: bool)
      requires Valid() && Proper(now) && now.sec > 0 && i < |list| && Match(list[i], e)
      modifies this
      ensures Valid() && (old(Timed(list, now)) ==> Timed(list, now))
      ensures list == old(list)[i := Touched(old(list)[i], id, e.seqno, e.ifp, e.delay, now)]
      ensures recorded == !Superseded(old(list)[i], id, e.seqno)
      ensures next == if recorded then WithTimer(old(next), list[i]) else old(next)
      ensures old(NotLate(list, |list|, now, next)) ==>
                (NotLate(list, |list|, now, next) <==> recorded || Covers(next, list[i], now))
    {
      ghost var s := list;
      var t := Touched(list[i], id, e.seqno, e.ifp, e.delay, now);
      TouchedIsPending(list[i], id, e.seqno, e.ifp, e.delay, now);
      UniqueUpdate(s, i, t);
      AddMsecAdds(now, t.delay);
      if NotLate(s, |s|, now, next) {
        EarlierNotLate(s, s[i := t], i, now, next);
      }
      recorded := !Superseded(list[i], id, e.seqno);
      hide Touched, Expired, Pending, Unique, Superseded, AddMsec;
      list := list[i := t];
      if recorded && t.delay != 0 {
        next := Earlier(next, Deadline(t));
      }
    }

    static lemma UniqueUpdate(s: seq<Entry>, i: nat, t: Entry)
      requires Unique(s) && Dated(s) && i < |s| && Match(t, s[i]) && Proper(t.time)
      ensures Unique(s[i := t]) && Dated(s[i := t])
    {
    }

    method Add(e: Entry, now: Time)
      requires Valid() && Proper(now) && now.sec > 0 && e.time == now
      requires forall j :: 0 <= j < |list| ==> !Match(list[j], e)
      modifies this
      ensures Valid() && list == [e] + old(list) && (old(Timed(list, now)) ==> Timed(list, now))
      ensures next == WithTimer(old(next), e)
      ensures old(NotLate(list, |list|, now, next)) ==> NotLate(list, |list|, now, next)
    {
      ghost var s := list;
      Added(s, e, now, next);
      AddMsecAdds(now, e.delay);
      hide Expired, Pending, Unique, AddMsec;
      list := [e] + list;
      if e.delay != 0 {
        next := Earlier(next, Deadline(e));
      }
    }

    static lemma Added(s: seq<Entry>, e: Entry, now: Time, t: Time)
      requires Unique(s) && Dated(s) && Proper(t) && Proper(e.time) && e.time.sec > 0
      requires forall j :: 0 <= j < |s| ==> !Match(s[j], e)
      ensures Unique([e] + s) && Dated([e] + s) && (Timed(s, now) ==> Timed([e] + s, now))
      ensures NotLate(s, |s|, now, t)
              ==> NotLate([e] + s, |s| + 1, now, if e.delay != 0 then Earlier(t, Deadline(e)) else t)
    {
      var u := [e] + s;
      assert forall j :: 0 < j < |u| ==> u[j] == s[j - 1] && !Match(u[j], e);
      AddMsecAdds(e.time, e.delay);
      CompareIsOrder(t, Deadline(e));
      hide Expired, Times.Compare, AddMsec;
    }

    /** recompute_resend_time */
    method RecomputeResendTime(now: Time)
      requires Valid()
      modifies `next
      ensures Valid() && (Timed(list, now) ==> IsNext(list, |list|, now, next))
    {
      var first := NEVER;
      hide Expired, Unique, TimedEntry;
      for i := 0 to |list|
        invariant Proper(first) && (Timed(list, now) ==> IsNext(list, i, now, first))
      {
        AddMsecAdds(list[i].time, list[i].delay);
        if Timed(list, now) { EarlierIsNext(list, i, now, first); }
        if Pending(list[i], now) {
          first := Earlier(first, Deadline(list[i]));
        }
      }
      next := first;
    }

    /** expire_resend: removes exactly what is expired, and keeps the order. */
    method ExpireResend(now: Time)
      requires Valid()
      modifies this
      ensures Valid() && list == Alive(old(list), |old(list)|, now)
      ensures if list == old(list) then next == old(next)
              else old(Timed(list, now)) ==> Timed(list, now) && IsNext(list, |list|, now, next)
    {
      AliveKeeps(list, |list|, now);
      hide Unique, Dated, Timed, Expired, Alive, IsNext;
      var recompute := Sweep(now);
      if recompute {
        RecomputeResendTime(now);
      }
    }

    /** The walk of expire_resend. */
    method Sweep(now: Time) returns (removed: bool)
      modifies `list
      ensures list == Alive(old(list), |old(list)|, now)
      ensures removed <==> |list| < |old(list)|
    {
      ghost var s, k := list, 0;
      WalkBegins(s, now);
      hide Walked, Expired, Alive;
      var i := 0;
      removed := false;
      while i < |list|
        invariant Walked(s, k, list, i, now)
        invariant k <= |s| && i <= k && |list| - i == |s| - k
        invariant removed <==> i < k
        decreases |s| - k
      {
        WalkStep(s, k, list, i, now);
        if Expired(list[i], now) {
          list := list[..i] + list[i + 1..];
          removed := true;
        } else {
          i := i + 1;
        }
        k := k + 1;
      }
      WalkEnds(s, list, i, now);
    }

    /** The walk has come past `k` of the entries, of which `i` are left; the others are still to come. */
    static ghost predicate Walked(s: seq<Entry>, k: nat, u: seq<Entry>, i: nat, now: Time) {
      k <= |s| && i == |Alive(s, k, now)| && u == Alive(s, k, now) + s[k..]
    }

    static lemma WalkBegins(s: seq<Entry>, now: Time)
      ensures Walked(s, 0, s, 0, now)
    {
    }

    static lemma WalkStep(s: seq<Entry>, k: nat, u: seq<Entry>, i: nat, now: Time)
      requires k < |s| && i < |u| && Walked(s, k, u, i, now)
      ensures if Expired(u[i], now) then Walked(s, k + 1, u[..i] + u[i + 1..], i, now)
              else Walked(s, k + 1, u, i + 1, now)
    {
    }

    static lemma WalkEnds(s: seq<Entry>, u: seq<Entry>, i: nat, now: Time)
      requires i == |u| && Walked(s, |s|, u, i, now)
      ensures u == Alive(s, |s|, now)
    {
    }

    /** do_resend: sends what is due when its turn comes, each with twice its delay and one try fewer from then on;
        returns what was sent. Sending may answer requests of the list: `answers` says which and when. */
    method DoResend(now: Time) returns (sent: seq<Entry>, ghost answers: seq<Answers>)
      requires Valid()
      modifies this
      ensures Valid() && |list| == |old(list)| == |answers|
      ensures forall i :: 0 <= i < |list| ==> list[i] == Passed(old(list)[i], now, answers[i])
      ensures forall i :: 0 <= i < |list| && answers[i] != UNANSWERED ==> list[i].kind.Request?
      ensures sent == Sent(old(list), answers, |answers|, now)
      ensures Timed(list, now) ==> IsNext(list, |list|, now, next)
      ensures old(Timed(list, now)) ==>
                (Timed(list, now) <==> forall i :: 0 <= i < |list| ==> !Rearmed(old(list)[i], now, answers[i]))
    {
      hide Due, Mark, Again, Early, Passed, Unique, Dated, Timed, IsNext, Underway, Noted, Sent, Rearmed;
      ghost var s := list;
      sent, answers := [], seq(|list|, _ => UNANSWERED);
      Untouched(s, answers, now);
      for i := 0 to |list|
        invariant Valid() && |list| == |s| && Underway(s, list, answers, i, now)
        invariant |answers| == |s| && sent == Sent(s, answers, i, now)
      {
        ghost var u := list;
        TurnComes(s, u, answers, i, now);
        if Due(list[i], now) {
          sent := sent + [list[i]];
          ghost var answered := Send(now);
          SentOne(s, u, answers, i, answered, now);
          answers := Noted(answers, i, answered);
          list := list[i := Again(list[i])];
        }
        StillValid(s, list, answers, i + 1, now);
      }
      AllPassed(s, list, answers, now);
      if Timed(s, now) { PassedTimed(s, list, answers, now); }
      RecomputeResendTime(now);
    }

    /** send_multihop_request and send_update, as far as the list is concerned: they may answer requests. */
    method Send(now: Time) returns (ghost answered: set<nat>)
      requires Valid()
      modifies this
      ensures Valid() && list == MarkedAll(old(list), answered)
      ensures forall j :: j in answered ==> j < |list| && old(list)[j].kind.Request?
    {
      hide Unique, Dated, Timed, IsNext, Answered, Match;
      ghost var s := list;
      answered := {};
      var n: nat := *;
      var k := 0;
      while k < n
        invariant Valid() && list == MarkedAll(s, answered)
        invariant forall j :: j in answered ==> j < |s| && s[j].kind.Request?
      {
        var e: Entry := *;
        var ifp: Option<nat> := *;
        if e.kind.Request? {
          var satisfied;
          ghost var at;
          satisfied, at := SatisfyRequest(e, ifp, now);
          if satisfied { answered := answered + {at}; }
        }
        k := k + 1;
      }
    }

    /** satisfy_request: the request is answered exactly when there is one that was sent on this interface, or the
        interface does not matter, and that does not ask for a newer sequence number. It is marked, to be removed
        later. */
    method SatisfyRequest(e: Entry, ifp: Option<nat>, now: Time) returns (satisfied: bool, ghost at: nat)
      requires Valid() && e.kind.Request?
      modifies this
      ensures Valid() && (old(Timed(list, now)) ==> Timed(list, now))
      ensures satisfied <==> exists i :: 0 <= i < |old(list)| && Answered(old(list)[i], e, ifp)
      ensures satisfied ==>
              && at < |old(list)| && Answered(old(list)[at], e, ifp) && old(list)[at].kind.Request?
              && list == old(list)[at := Mark(old(list)[at])]
              && (Timed(list, now) ==> IsNext(list, |list|, now, next))
      ensures !satisfied ==> list == old(list) && next == old(next)
    {
      at := 0;
      var i := FindResend(e);
      if i < 0 || (ifp.Some? && list[i].ifp != ifp)
         || (list[i].id == e.id && Seqno.Compare(list[i].seqno, e.seqno) > 0) {
        OneMatch(list, i, e);
        return false, 0;
      }
      at := i;
      Marked(list, i, now);
      list := list[i := Mark(list[i])];
      RecomputeResendTime(now);
      return true, at;
    }

    static lemma OneMatch(s: seq<Entry>, i: int, e: Entry)
      requires Unique(s) && (0 <= i < |s| ==> Match(s[i], e))
      ensures forall j :: 0 <= i < |s| && 0 <= j < |s| && Match(s[j], e) ==> j == i
    {
    }

    static lemma Marked(s: seq<Entry>, i: nat, now: Time)
      requires Unique(s) && Dated(s) && i < |s|
      ensures var u := s[i := Mark(s[i])]; Unique(u) && Dated(u) && (Timed(s, now) ==> Timed(u, now))
    {
    }
  }

  // ---- the walk of do_resend

  function MarkedAll(s: seq<Entry>, answered: set<nat>): (u: seq<Entry>)
    ensures |u| == |s|
  {
    seq(|s|, j requires 0 <= j < |s| => if j in answered then Mark(s[j]) else s[j])
  }

  /** What is known of the answers when entry `i` has been sent. */
  ghost function Noted(answers: seq<Answers>, i: nat, answered: set<nat>): (u: seq<Answers>)
    ensures |u| == |answers|
  {
    seq(|answers|, j requires 0 <= j < |answers| => Note(answers[j], j, i, j in answered))
  }

  function Note(a: Answers, j: nat, i: nat, answered: bool): Answers {
    if !answered then a
    else if j < i then a.(after := true)
    else if j == i then a.(during := true)
    else a.(before := true)
  }

  /** The walk has passed the first `i` entries. */
  ghost predicate Underway(s: seq<Entry>, u: seq<Entry>, answers: seq<Answers>, i: nat, now: Time) {
    && |u| == |s| == |answers|
    && forall j :: 0 <= j < |s| ==> UnderwayAt(s[j], u[j], answers[j], j < i, now)
  }

  predicate UnderwayAt(e: Entry, u: Entry, a: Answers, passed: bool, now: Time) {
    && (if passed then u == Passed(e, now, a) else u == Early(e, a) && !a.during && !a.after)
    && (a != UNANSWERED ==> e.kind.Request?)
  }

  lemma Untouched(s: seq<Entry>, answers: seq<Answers>, now: Time)
    requires |answers| == |s| && forall j :: 0 <= j < |s| ==> answers[j] == UNANSWERED
    ensures Underway(s, s, answers, 0, now) && Sent(s, answers, 0, now) == []
  {
  }

  /** The next entry: it is due if it was and has not been answered. Without sending, the walk goes on. */
  lemma TurnComes(s: seq<Entry>, u: seq<Entry>, answers: seq<Answers>, i: nat, now: Time)
    requires Underway(s, u, answers, i, now) && i < |s|
    ensures Due(u[i], now) ==> u[i] == s[i]
    ensures Sent(s, answers, i + 1, now) == Sent(s, answers, i, now) + if Due(u[i], now) then [s[i]] else []
    ensures !Due(u[i], now) ==> Underway(s, u, answers, i + 1, now)
  {
    hide Deadline, Times.Compare, Expired, Sent;
    assert UnderwayAt(s[i], u[i], answers[i], false, now);
    NotDue(s[i], answers[i], now);
    SentIs(s, answers, i, now);
    if !Due(u[i], now) {
      forall j | 0 <= j < |s| ensures UnderwayAt(s[j], u[j], answers[j], j < i + 1, now) {
        assert UnderwayAt(s[j], u[j], answers[j], j < i, now);
      }
    }
  }

  lemma SentIs(s: seq<Entry>, answers: seq<Answers>, i: nat, now: Time)
    requires i < |s| == |answers|
    ensures Sent(s, answers, i + 1, now)
            == Sent(s, answers, i, now) + if Due(s[i], now) && !answers[i].before then [s[i]] else []
  {
  }

  lemma NotDue(e: Entry, a: Answers, now: Time)
    ensures Due(Early(e, a), now) <==> Due(e, now) && !a.before
  {
  }

  lemma SentOne(s: seq<Entry>, u: seq<Entry>, answers: seq<Answers>, i: nat, answered: set<nat>, now: Time)
    requires Underway(s, u, answers, i, now) && i < |s| && Due(u[i], now)
    requires forall j :: j in answered ==> j < |s| && u[j].kind.Request?
    ensures var v := MarkedAll(u, answered);
            Underway(s, v[i := Again(v[i])], Noted(answers, i, answered), i + 1, now)
    ensures Sent(s, Noted(answers, i, answered), i + 1, now) == Sent(s, answers, i + 1, now)
  {
    hide Due, Mark, Again, Early, Passed, Note, UnderwayAt, Sent;
    var v, b := MarkedAll(u, answered), Noted(answers, i, answered);
    var w := v[i := Again(v[i])];
    forall j | 0 <= j < |s| ensures UnderwayAt(s[j], w[j], b[j], j < i + 1, now) {
      NoteRight(s[j], u[j], answers[j], j, i, j in answered, now);
    }
    forall j | 0 <= j < i + 1 ensures b[j].before == answers[j].before {
      NoteRight(s[j], u[j], answers[j], j, i, j in answered, now);
    }
    SameSent(s, b, answers, i + 1, now);
  }

  lemma NoteRight(e: Entry, u: Entry, a: Answers, j: nat, i: nat, answered: bool, now: Time)
    ensures j <= i ==> Note(a, j, i, answered).before == a.before
    ensures UnderwayAt(e, u, a, j < i, now) && (j == i ==> Due(u, now)) && (answered ==> u.kind.Request?) ==>
              var v := if answered then Mark(u) else u;
              UnderwayAt(e, if j == i then Again(v) else v, Note(a, j, i, answered), j < i + 1, now)
  {
    hide Due;
  }

  lemma {:induction false} SameSent(s: seq<Entry>, a: seq<Answers>, b: seq<Answers>, n: nat, now: Time)
    requires n <= |s| == |a| == |b| && forall j :: 0 <= j < n ==> a[j].before == b[j].before
    ensures Sent(s, a, n, now) == Sent(s, b, n, now)
  {
    hide Due;
    if n > 0 { SameSent(s, a, b, n - 1, now); }
  }

  /** Marking and sending change no entry's kind and prefix pair. */
  lemma StillValid(s: seq<Entry>, u: seq<Entry>, answers: seq<Answers>, i: nat, now: Time)
    requires Unique(s) && Dated(s) && Underway(s, u, answers, i, now)
    ensures Unique(u) && Dated(u)
  {
    hide Due;
    forall j | 0 <= j < |s| ensures Match(u[j], s[j]) && Proper(u[j].time) {
      assert UnderwayAt(s[j], u[j], answers[j], j < i, now);
    }
    hide UnderwayAt;
  }

  lemma AllPassed(s: seq<Entry>, u: seq<Entry>, answers: seq<Answers>, now: Time)
    requires Underway(s, u, answers, |s|, now)
    ensures |u| == |s| == |answers|
    ensures forall i :: 0 <= i < |s| ==> u[i] == Passed(s[i], now, answers[i])
    ensures forall i :: 0 <= i < |s| && answers[i] != UNANSWERED ==> u[i].kind.Request?
  {
    hide Passed;
    forall i | 0 <= i < |s|
      ensures u[i] == Passed(s[i], now, answers[i]) && (answers[i] != UNANSWERED ==> u[i].kind.Request?)
    {
      SameKind(s[i], now, answers[i]);
      assert UnderwayAt(s[i], u[i], answers[i], true, now);
    }
  }

  lemma PassedTimed(s: seq<Entry>, u: seq<Entry>, answers: seq<Answers>, now: Time)
    requires |u| == |s| == |answers| && Timed(s, now)
    requires forall i :: 0 <= i < |s| ==> u[i] == Passed(s[i], now, answers[i])
    requires forall i :: 0 <= i < |s| && answers[i] != UNANSWERED ==> u[i].kind.Request?
    ensures Timed(u, now) <==> forall i :: 0 <= i < |s| ==> !Rearmed(s[i], now, answers[i])
  {
    hide Passed, TimedEntry, Rearmed;
    forall i | 0 <= i < |s| ensures TimedEntry(u[i], now) <==> !Rearmed(s[i], now, answers[i]) {
      SameKind(s[i], now, answers[i]);
      assert TimedEntry(s[i], now);
      PassedTimedEntry(s[i], now, answers[i]);
    }
  }

  lemma PassedTimedEntry(e: Entry, now: Time, a: Answers)
    requires TimedEntry(e, now) && (a != UNANSWERED ==> e.kind.Request?)
    ensures TimedEntry(Passed(e, now, a), now) <==> !Rearmed(e, now, a)
  {
    hide Deadline, Times.Compare;
  }

  lemma SameKind(e: Entry, now: Time, a: Answers)
    ensures Passed(e, now, a).kind == e.kind
  {
    hide Due;
  }
}
