/** The order in which buffered updates are sent (compare_buffered_updates). */
module UpdateOrder {
  import opened Common
  import opened Prefix
  import Lex

  type RouterId = a: seq<U8> | |a| == 8 witness [0, 0, 0, 0, 0, 0, 0, 0]

  /** The prefix pair that an update is about. */
  datatype Pair = Pair(prefix: Address, plen: U8, srcPrefix: Address, srcPlen: U8)

  /** struct buffered_update */
  datatype Entry = Entry(id: RouterId, pair: Pair)

  predicate IsV4(e: Entry) { e.pair.plen >= 96 && V4Mapped(e.pair.prefix) }

  /** The address of the router itself, from which the receiver learns its id. */
  predicate IsIdAddress(e: Entry) { !IsV4(e) && e.pair.plen == 128 && e.pair.prefix[8..] == e.id }

  function Number(b: bool): int { if b then 1 else 0 }

  function CompareEntries(a: Entry, b: Entry): int {
    var byId := Lex.Compare(a.id, b.id);
    if byId != 0 then byId
    else if Number(IsV4(a)) > Number(IsV4(b)) then 1
    else if Number(IsV4(a)) < Number(IsV4(b)) then -1
    else if Number(IsIdAddress(a)) > Number(IsIdAddress(b)) then -1
    else if Number(IsIdAddress(b)) > Number(IsIdAddress(a)) then 1
    else if a.pair.plen < b.pair.plen then 1
    else if a.pair.plen > b.pair.plen then -1
    else
      var byPrefix := Lex.Compare(a.pair.prefix, b.pair.prefix);
      if byPrefix != 0 then byPrefix
      else if a.pair.srcPlen < b.pair.srcPlen then -1
      else if a.pair.srcPlen > b.pair.srcPlen then 1
      else Lex.Compare(a.pair.srcPrefix, b.pair.srcPrefix)
  }

  function Tail(e: Entry): (v: seq<int>)
    ensures |v| == 33
  {
    e.pair.prefix + ([e.pair.srcPlen as int] + e.pair.srcPrefix)
  }

  function Rest(e: Entry): (v: seq<int>)
    ensures |v| == 36
  {
    [Number(IsV4(e))] + ([-Number(IsIdAddress(e))] + ([-(e.pair.plen as int)] + Tail(e)))
  }

  /** What the comparison looks at, the most significant first. */
  function Vector(e: Entry): (v: seq<int>)
    ensures |v| == 44
  {
    e.id + Rest(e)
  }

  lemma TailOrder(a: Entry, b: Entry)
    ensures Lex.Compare(Tail(a), Tail(b))
            == var byPrefix := Lex.Compare(a.pair.prefix, b.pair.prefix);
               if byPrefix != 0 then byPrefix
               else if a.pair.srcPlen < b.pair.srcPlen then -1
               else if a.pair.srcPlen > b.pair.srcPlen then 1
               else Lex.Compare(a.pair.srcPrefix, b.pair.srcPrefix)
  {
    hide Lex.Compare;
    Lex.Concat(a.pair.prefix, b.pair.prefix,
               [a.pair.srcPlen as int] + a.pair.srcPrefix, [b.pair.srcPlen as int] + b.pair.srcPrefix);
    Lex.Concat([a.pair.srcPlen as int], [b.pair.srcPlen as int], a.pair.srcPrefix, b.pair.srcPrefix);
    Lex.One(a.pair.srcPlen, b.pair.srcPlen);
  }

  lemma RestOrder(a: Entry, b: Entry)
    ensures Lex.Compare(Rest(a), Rest(b))
            == if IsV4(a) != IsV4(b) then (if IsV4(a) then 1 else -1)
               else if IsIdAddress(a) != IsIdAddress(b) then (if IsIdAddress(a) then -1 else 1)
               else if a.pair.plen != b.pair.plen then (if a.pair.plen < b.pair.plen then 1 else -1)
               else Lex.Compare(Tail(a), Tail(b))
  {
    hide Lex.Compare, Tail, IsV4, IsIdAddress;
    var x3, y3 := [-(a.pair.plen as int)] + Tail(a), [-(b.pair.plen as int)] + Tail(b);
    var x2, y2 := [-Number(IsIdAddress(a))] + x3, [-Number(IsIdAddress(b))] + y3;
    Lex.Concat([Number(IsV4(a))], [Number(IsV4(b))], x2, y2);
    Lex.Concat([-Number(IsIdAddress(a))], [-Number(IsIdAddress(b))], x3, y3);
    Lex.Concat([-(a.pair.plen as int)], [-(b.pair.plen as int)], Tail(a), Tail(b));
    Lex.One(Number(IsV4(a)), Number(IsV4(b)));
    Lex.One(-Number(IsIdAddress(a)), -Number(IsIdAddress(b)));
    Lex.One(-(a.pair.plen as int), -(b.pair.plen as int));
  }

  lemma CompareIsVectorOrder(a: Entry, b: Entry)
    ensures CompareEntries(a, b) == Lex.Compare(Vector(a), Vector(b))
  {
    hide Lex.Compare, Tail, Rest, IsV4, IsIdAddress;
    Lex.Concat(a.id, b.id, Rest(a), Rest(b));
    RestOrder(a, b);
    TailOrder(a, b);
  }

  lemma TailIsPrefixes(a: Entry, b: Entry)
    requires Tail(a) == Tail(b)
    ensures a.pair.prefix == b.pair.prefix && a.pair.srcPlen == b.pair.srcPlen && a.pair.srcPrefix == b.pair.srcPrefix
  {
    Lex.Split(a.pair.prefix, [a.pair.srcPlen as int] + a.pair.srcPrefix,
              b.pair.prefix, [b.pair.srcPlen as int] + b.pair.srcPrefix);
    Lex.Split([a.pair.srcPlen as int], a.pair.srcPrefix, [b.pair.srcPlen as int], b.pair.srcPrefix);
    assert [a.pair.srcPlen as int][0] == [b.pair.srcPlen as int][0];
  }

  lemma RestIsPlenAndTail(a: Entry, b: Entry)
    requires Rest(a) == Rest(b)
    ensures a.pair.plen == b.pair.plen && Tail(a) == Tail(b)
  {
    hide Tail, IsV4, IsIdAddress;
    var x3, y3 := [-(a.pair.plen as int)] + Tail(a), [-(b.pair.plen as int)] + Tail(b);
    var x2, y2 := [-Number(IsIdAddress(a))] + x3, [-Number(IsIdAddress(b))] + y3;
    Lex.Split([Number(IsV4(a))], x2, [Number(IsV4(b))], y2);
    Lex.Split([-Number(IsIdAddress(a))], x3, [-Number(IsIdAddress(b))], y3);
    Lex.Split([-(a.pair.plen as int)], Tail(a), [-(b.pair.plen as int)], Tail(b));
    assert [-(a.pair.plen as int)][0] == [-(b.pair.plen as int)][0];
  }

  /** The order tells any two updates apart. */
  lemma VectorIsEntry(a: Entry, b: Entry)
    requires Vector(a) == Vector(b)
    ensures a == b
  {
    hide Rest, Tail;
    Lex.Split(a.id, Rest(a), b.id, Rest(b));
    RestIsPlenAndTail(a, b);
    TailIsPrefixes(a, b);
  }

  ghost predicate Sorted(s: seq<Entry>) {
    forall i, j :: 0 <= i < j < |s| ==> CompareEntries(s[i], s[j]) <= 0
  }

  /** In a sorted buffer the same update is found side by side. */
  lemma Adjacent(s: seq<Entry>, i: nat, j: nat, k: nat)
    requires Sorted(s) && i <= j <= k < |s| && s[i] == s[k]
    ensures s[j] == s[i]
  {
    if i < j < k {
      CompareIsVectorOrder(s[i], s[j]);
      CompareIsVectorOrder(s[j], s[k]);
      Lex.Antisymmetric(Vector(s[i]), Vector(s[j]));
      VectorIsEntry(s[i], s[j]);
    }
  }

  /** Within one router-id and family, addresses of the router go first, and otherwise longer prefixes. */
  lemma LongerFirst(s: seq<Entry>, i: nat, j: nat)
    requires Sorted(s) && i < j < |s| && s[i].id == s[j].id && IsV4(s[i]) == IsV4(s[j])
    ensures IsIdAddress(s[j]) ==> IsIdAddress(s[i])
    ensures IsIdAddress(s[i]) == IsIdAddress(s[j]) ==> s[i].pair.plen >= s[j].pair.plen
  {
    Lex.Antisymmetric(s[i].id, s[j].id);
    assert CompareEntries(s[i], s[j]) <= 0;
  }

  /** Updates with one router-id go out together, those for IPv6 before those for IPv4. */
  lemma GroupedById(s: seq<Entry>, i: nat, j: nat, k: nat)
    requires Sorted(s) && i < j < k < |s| && s[i].id == s[k].id
    ensures s[j].id == s[i].id && (IsV4(s[i]) ==> IsV4(s[j])) && (IsV4(s[j]) ==> IsV4(s[k]))
  {
    Lex.Antisymmetric(s[i].id, s[j].id);
    assert CompareEntries(s[i], s[j]) <= 0 && CompareEntries(s[j], s[k]) <= 0;
  }
}

/** flushupdates: which of the buffered updates are sent, and as what. */
module UpdateFlush {
  import opened Common
  import opened Prefix
  import opened UpdateOrder
  import opened Wire

  type Channels = c: Bytes | |c| <= MAX_CHANNEL_HOPS
  type IPv4 = a: Bytes | |a| == 4 witness [0, 0, 0, 0]
  type Interval = n: nat | (n + 5) / 10 < 0x1_0000

  /** An installed route. `channels` is the list that is sent with it. */
  datatype Learned = Learned(id: RouterId, neighIfp: nat, seqno: U16, metric: U16, channels: Channels)

  /** What the flush looks up: the route that is installed for a prefix pair, and the metric of our own. */
  datatype Lookup = Lookup(installed: Pair -> Option<Learned>, own: Pair -> Option<U16>, myId: RouterId,
                           kernelMetric: int, ifindex: nat, splitHorizon: bool)

  datatype Choice = Own(metric: U16) | Via(route: Learned) | Suppressed | Retraction

  function Choose(l: Lookup, pair: Pair): Choice {
    var own, route := l.own(pair), l.installed(pair);
    if own.Some? && (route.None? || own.value <= l.kernelMetric) then Own(own.value)
    else if route.Some? then
      if l.splitHorizon && route.value.neighIfp == l.ifindex then Suppressed else Via(route.value)
    else Retraction
  }

  datatype Sent = Sent(pair: Pair, choice: Choice)

  /** The interface would send a route back to where it came from. */
  predicate Echoes(l: Lookup, route: Learned) { l.splitHorizon && route.neighIfp == l.ifindex }

  /** Ours goes out if there is one, and no learned route, or its metric is at most kernel_metric; the learned one if
      there is one, ours does not, and it is no echo; a retraction if there is neither. */
  lemma ChooseMeans(l: Lookup, pair: Pair)
    ensures var own, route, c := l.own(pair), l.installed(pair), Choose(l, pair);
            && (c.Own? <==> own.Some? && (route.None? || own.value <= l.kernelMetric))
            && (c.Own? ==> c.metric == own.value)
            && (c.Via? <==> route.Some? && (own.None? || own.value > l.kernelMetric) && !Echoes(l, route.value))
            && (c.Via? ==> Some(c.route) == route)
            && (c.Suppressed? <==> route.Some? && (own.None? || own.value > l.kernelMetric) && Echoes(l, route.value))
            && (c.Retraction? <==> route.None? && own.None?)
  {
  }

  /** How often a prefix pair that was buffered `n` times is sent. */
  function Times(c: Choice, n: nat): nat {
    if n == 0 || c.Suppressed? then 0
    else if c.Retraction? then n
    else 1
  }

  /** The id that is stamped on an entry depends on its prefix pair only. */
  function Stamp(l: Lookup, pair: Pair): Entry {
    Entry(match l.installed(pair) case Some(r) => r.id case None => l.myId, pair)
  }

  function Stamped(l: Lookup, buffered: seq<Pair>): (s: seq<Entry>)
    ensures |s| == |buffered|
  {
    seq(|buffered|, i requires 0 <= i < |buffered| => Stamp(l, buffered[i]))
  }

  /** How often a prefix pair occurs among the first `n` entries. */
  function Count(s: seq<Entry>, n: nat, pair: Pair): nat
    requires n <= |s|
  {
    if n == 0 then 0 else Count(s, n - 1, pair) + if s[n - 1].pair == pair then 1 else 0
  }

  function CountSent(s: seq<Sent>, pair: Pair): nat {
    if s == [] then 0 else CountSent(s[..|s| - 1], pair) + if s[|s| - 1].pair == pair then 1 else 0
  }

  lemma CountSentMore(s: seq<Sent>, x: Sent, pair: Pair)
    ensures CountSent(s + [x], pair) == CountSent(s, pair) + if x.pair == pair then 1 else 0
  {
  }

  /** Sorting changes no count. */
  lemma {:induction false} CountIsMultiplicity(l: Lookup, s: seq<Entry>, n: nat, pair: Pair)
    requires n <= |s| && forall i :: 0 <= i < n ==> s[i] == Stamp(l, s[i].pair)
    ensures Count(s, n, pair) == multiset(s[..n])[Stamp(l, pair)]
  {
    if n > 0 {
      CountIsMultiplicity(l, s, n - 1, pair);
      assert s[..n] == s[..n - 1] + [s[n - 1]];
      assert s[n - 1] == Stamp(l, pair) <==> s[n - 1].pair == pair;
      hide Stamp;
    }
  }

  lemma {:induction false} CountIsPairs(l: Lookup, buffered: seq<Pair>, n: nat, pair: Pair)
    requires n <= |buffered|
    ensures Count(Stamped(l, buffered), n, pair) == multiset(buffered[..n])[pair]
  {
    if n > 0 {
      CountIsPairs(l, buffered, n - 1, pair);
      assert buffered[..n] == buffered[..n - 1] + [buffered[n - 1]];
    }
  }

  lemma SortedCounts(l: Lookup, buffered: seq<Pair>, sorted: seq<Entry>, pair: Pair)
    requires multiset(sorted) == multiset(Stamped(l, buffered))
    ensures Count(sorted, |sorted|, pair) == multiset(buffered)[pair]
  {
    var stamped := Stamped(l, buffered);
    AllStamped(l, buffered, sorted);
    assert sorted[..|sorted|] == sorted && stamped[..|stamped|] == stamped && buffered[..|buffered|] == buffered;
    CountIsMultiplicity(l, sorted, |sorted|, pair);
    CountIsMultiplicity(l, stamped, |stamped|, pair);
    CountIsPairs(l, buffered, |buffered|, pair);
  }

  lemma AllStamped(l: Lookup, buffered: seq<Pair>, sorted: seq<Entry>)
    requires multiset(sorted) == multiset(Stamped(l, buffered))
    ensures forall i :: 0 <= i < |sorted| ==> sorted[i] == Stamp(l, sorted[i].pair)
  {
    forall i | 0 <= i < |sorted| ensures sorted[i] == Stamp(l, sorted[i].pair) {
      assert sorted[i] in multiset(sorted);
      assert sorted[i] in Stamped(l, buffered);
    }
  }

  predicate SentOnce(c: Choice) { c.Own? || c.Via? }

  /** What the next entry is compared to: if the last one looked at was sent for a route or for one of our own, it
      is that one; in any case it is one that was looked at. */
  ghost predicate Remembered(l: Lookup, s: seq<Entry>, n: nat, last: Option<Pair>)
    requires n <= |s|
  {
    && (last.Some? ==> Count(s, n, last.value) > 0 && SentOnce(Choose(l, last.value)))
    && (n > 0 && SentOnce(Choose(l, s[n - 1].pair)) ==> last == Some(s[n - 1].pair))
  }

  /** Comparing with the last one sent finds every repetition. */
  lemma Repeated(l: Lookup, s: seq<Entry>, n: nat, last: Option<Pair>)
    requires n < |s| && Sorted(s) && Remembered(l, s, n, last)
    requires forall i :: 0 <= i < |s| ==> s[i] == Stamp(l, s[i].pair)
    requires SentOnce(Choose(l, s[n].pair))
    ensures last == Some(s[n].pair) <==> Count(s, n, s[n].pair) > 0
  {
    hide Sorted, Choose, Stamp, SentOnce, Count;
    if Count(s, n, s[n].pair) > 0 {
      var i := Occurrence(s, n, s[n].pair);
      Adjacent(s, i, n - 1, n);
    }
  }

  lemma {:induction false} Occurrence(s: seq<Entry>, n: nat, pair: Pair) returns (i: nat)
    requires n <= |s| && Count(s, n, pair) > 0
    ensures i < n && s[i].pair == pair
  {
    if s[n - 1].pair == pair {
      i := n - 1;
    } else {
      i := Occurrence(s, n - 1, pair);
    }
  }

  /** flushupdates. `sorted` is what qsort makes of the stamped buffer. A prefix pair with an installed route or a
      route of our own is sent once, however often it was buffered, unless split horizon suppresses it; one with
      neither is retracted as often as it was buffered. */
  method FlushUpdates(l: Lookup, up: bool, buffered: seq<Pair>, sorted: seq<Entry>) returns (sent: seq<Sent>)
    requires multiset(sorted) == multiset(Stamped(l, buffered)) && Sorted(sorted)
    ensures up ==> forall p :: CountSent(sent, p) == Times(Choose(l, p), multiset(buffered)[p])
    ensures forall x :: x in sent ==> x.choice == Choose(l, x.pair)
    ensures if up then AsPromised(l, buffered, sent) else sent == []
  {
    sent := [];
    if !up {
      return;
    }
    AllStamped(l, buffered, sorted);
    var last: Option<Pair> := None;
    var n := 0;
    while n < |sorted|
      invariant n <= |sorted| && Remembered(l, sorted, n, last)
      invariant forall p :: CountSent(sent, p) == Times(Choose(l, p), Count(sorted, n, p))
      invariant forall x :: x in sent ==> x.choice == Choose(l, x.pair)
    {
      var pair := sorted[n].pair;
      sent, last := FlushOne(l, sorted, n, sent, last);
      n := n + 1;
    }
    forall p ensures CountSent(sent, p) == Times(Choose(l, p), multiset(buffered)[p]) {
      SortedCounts(l, buffered, sorted, p);
    }
    FlushedAsPromised(l, buffered, sent);
  }

  /** What is sent in terms of the tables that are looked up: routes of our own, installed ones that ours do not
      precede and that are no echo, and retractions if there is neither; each once but for the retractions. */
  ghost predicate AsPromised(l: Lookup, buffered: seq<Pair>, sent: seq<Sent>) {
    && (forall x :: x in sent ==>
          x.pair in buffered
          && match x.choice
             case Own(metric) =>
               l.own(x.pair) == Some(metric) && (l.installed(x.pair).None? || metric <= l.kernelMetric)
             case Via(route) =>
               && l.installed(x.pair) == Some(route) && !(l.splitHorizon && route.neighIfp == l.ifindex)
               && (l.own(x.pair).None? || l.own(x.pair).value > l.kernelMetric)
             case Suppressed => false
             case Retraction => l.installed(x.pair).None? && l.own(x.pair).None?)
    && forall p :: p in buffered ==>
         CountSent(sent, p)
         == if l.own(p).Some? && (l.installed(p).None? || l.own(p).value <= l.kernelMetric) then 1
            else if l.installed(p).Some?
            then (if l.splitHorizon && l.installed(p).value.neighIfp == l.ifindex then 0 else 1)
            else multiset(buffered)[p]
  }

  lemma FlushedAsPromised(l: Lookup, buffered: seq<Pair>, sent: seq<Sent>)
    requires forall p :: CountSent(sent, p) == Times(Choose(l, p), multiset(buffered)[p])
    requires forall x :: x in sent ==> x.choice == Choose(l, x.pair)
    ensures AsPromised(l, buffered, sent)
  {
    hide Choose;
    forall x | x in sent ensures x.pair in buffered && !Choose(l, x.pair).Suppressed? {
      SentIsCounted(sent, x);
      assert multiset(buffered)[x.pair] > 0;
    }
    forall p ensures multiset(buffered)[p] > 0 <==> p in buffered {
    }
    forall p: Pair {
      ChooseMeans(l, p);
    }
  }

  /** One round of the loop of flushupdates. */
  method FlushOne(l: Lookup, s: seq<Entry>, n: nat, before: seq<Sent>, previous: Option<Pair>)
    returns (sent: seq<Sent>, last: Option<Pair>)
    requires n < |s| && Sorted(s) && Remembered(l, s, n, previous)
    requires forall i :: 0 <= i < |s| ==> s[i] == Stamp(l, s[i].pair)
    requires forall p :: CountSent(before, p) == Times(Choose(l, p), Count(s, n, p))
    requires forall x :: x in before ==> x.choice == Choose(l, x.pair)
    ensures Remembered(l, s, n + 1, last)
    ensures forall p :: CountSent(sent, p) == Times(Choose(l, p), Count(s, n + 1, p))
    ensures forall x :: x in sent ==> x.choice == Choose(l, x.pair)
  {
    sent, last := before, previous;
    var pair := s[n].pair;
    var choice := Choose(l, pair);
    if SentOnce(choice) { Repeated(l, s, n, last); }
    if last == Some(pair) {
      return;
    }
    if choice.Suppressed? {
      return;
    }
    sent := sent + [Sent(pair, choice)];
    forall p { CountSentMore(before, Sent(pair, choice), p); }
    if !choice.Retraction? {
      last := Some(pair);
    }
  }

  // ---------------------------------------------------------------- what is written for it

  /** What sending depends on besides the buffer: the interface, the output filter, and the tables it looks up. */
  datatype Environment = Environment(up: bool, ipv4: Option<IPv4>, interval: Interval, diversity: bool, mySeqno: U16,
                                     filter: (Bytes, Pair) -> nat, lookup: Lookup)

  /** Prefixes are normalized, and of one family. */
  predicate Proper(p: Pair) {
    && p.plen <= 128 && Normalize(p.prefix, p.plen) == p.prefix
    && p.srcPlen <= 128 && Normalize(p.srcPrefix, p.srcPlen) == p.srcPrefix
    && (p.plen >= 96 && V4Mapped(p.prefix) && p.srcPlen != 0 ==> p.srcPlen >= 96 && V4Mapped(p.srcPrefix))
  }

  ghost predicate AllProper(out: seq<Sent>) { forall x :: x in out ==> Proper(x.pair) }

  function PairOf(u: Update): Pair { Pair(u.prefix, u.plen, u.srcPrefix, u.srcPlen) }

  /** The update that really_send_update writes, if it writes one: the interface is up, the output filter lets it pass,
      and IPv4 has a next hop. No channels are a length of -1. */
  function Written(e: Environment, id: RouterId, p: Pair, seqno: U16, metric: U16, channels: Option<Channels>):
    (w: Option<Update>)
    requires Proper(p)
    ensures w.Some? ==> w.value.Valid() && PairOf(w.value) == p
  {
    var u := Update(id, p.prefix, p.plen, p.srcPrefix, p.srcPlen, seqno, Min(metric + e.filter(id, p), INFINITY),
                    if e.diversity && channels.Some? then Some(channels.value) else None,
                    if e.ipv4.Some? then e.ipv4.value else [0, 0, 0, 0], (e.interval + 5) / 10);
    if !e.up || e.filter(id, p) >= INFINITY || (u.V4() && e.ipv4.None?) then None else Some(u)
  }

  /** And what flushupdates asks it to write. */
  function WrittenFor(e: Environment, x: Sent): (w: Option<Update>)
    requires Proper(x.pair)
    ensures w.Some? ==> w.value.Valid() && PairOf(w.value) == x.pair
  {
    match x.choice
    case Own(metric) => Written(e, e.lookup.myId, x.pair, e.mySeqno, metric, Some([]))
    case Via(r) => Written(e, r.id, x.pair, r.seqno, r.metric, Some(r.channels))
    case Suppressed => None
    case Retraction => Written(e, e.lookup.myId, x.pair, e.mySeqno, INFINITY, None)
  }

  /** What an update says: nothing is written exactly if the interface is down, the filter refuses it, or IPv4 has no
      next hop; otherwise the id, the prefix pair and the number are those given, the metric is raised by the filter,
      the channels are there under diversity only, and the rest is that of the interface. */
  ghost predicate Says(w: Option<Update>, e: Environment, id: RouterId, p: Pair, seqno: U16, metric: nat,
                       channels: Option<Channels>)
  {
    var added := e.filter(id, p);
    && (w.None? <==> !e.up || added >= 0xFFFF || (p.plen >= 96 && V4Mapped(p.prefix) && e.ipv4.None?))
    && (w.Some? ==>
          && w.value.id == id && w.value.seqno == seqno
          && w.value.prefix == p.prefix && w.value.plen == p.plen
          && w.value.srcPrefix == p.srcPrefix && w.value.srcPlen == p.srcPlen
          && w.value.metric == (if metric + added >= 0xFFFF then 0xFFFF else metric + added)
          && (if e.diversity then w.value.channels == match channels case Some(c) => Some(c) case None => None
              else w.value.channels == None)
          && w.value.interval * 10 <= e.interval + 5 < w.value.interval * 10 + 10
          && (e.ipv4.Some? ==> w.value.ipv4 == e.ipv4.value))
  }

  /** And for each choice of flushupdates: under our own id and number for our own routes and for retractions, which are
      infinite, and under those of the route for installed ones. */
  lemma WrittenForSays(e: Environment, x: Sent)
    requires Proper(x.pair)
    ensures match x.choice
            case Own(metric) => Says(WrittenFor(e, x), e, e.lookup.myId, x.pair, e.mySeqno, metric, Some([]))
            case Via(r) => Says(WrittenFor(e, x), e, r.id, x.pair, r.seqno, r.metric, Some(r.channels))
            case Suppressed => WrittenFor(e, x) == None
            case Retraction => Says(WrittenFor(e, x), e, e.lookup.myId, x.pair, e.mySeqno, 0xFFFF, None)
  {
    hide Proper, Update.Valid;
  }

  lemma WrittenSays(e: Environment, id: RouterId, p: Pair, seqno: U16, metric: U16, channels: Option<Channels>)
    requires Proper(p)
    ensures Says(Written(e, id, p, seqno, metric, channels), e, id, p, seqno, metric, channels)
  {
    hide Proper, Update.Valid;
  }

  /** What flushupdates sends of the updates that are buffered. */
  ghost predicate Flushed(e: Environment, buffered: seq<Pair>, out: seq<Sent>) {
    if e.up then
      && (forall p :: CountSent(out, p) == Times(Choose(e.lookup, p), multiset(buffered)[p]))
      && (forall x :: x in out ==> x.choice == Choose(e.lookup, x.pair))
      && AsPromised(e.lookup, buffered, out)
    else out == []
  }

  lemma NothingFlushed(e: Environment)
    ensures Flushed(e, [], [])
  {
  }

  /** On an interface that is down, the updates are dropped. */
  lemma DownFlushes(e: Environment, buffered: seq<Pair>)
    ensures !e.up ==> Flushed(e, buffered, [])
  {
  }

  lemma {:induction false} SentIsCounted(out: seq<Sent>, x: Sent)
    requires x in out
    ensures CountSent(out, x.pair) > 0
  {
    var n := |out| - 1;
    if out[n] != x {
      assert out == out[..n] + [out[n]];
      SentIsCounted(out[..n], x);
    }
  }

  /** What is sent was buffered. */
  lemma SentWasBuffered(e: Environment, buffered: seq<Pair>, out: seq<Sent>)
    requires Flushed(e, buffered, out)
    ensures forall x :: x in out ==> x.pair in buffered && x.choice == Choose(e.lookup, x.pair)
  {
    forall x | x in out ensures x.pair in buffered {
      SentIsCounted(out, x);
      assert multiset(buffered)[x.pair] > 0;
    }
  }

  /** All libc promises of qsort. */
  ghost predicate IsSort(qsort: seq<Entry> -> seq<Entry>) {
    forall s :: multiset(qsort(s)) == multiset(s) && Sorted(qsort(s))
  }

  /** The order of flushing looks at the families and ids as the encoding does: those of IPv4 are the updates that
      need the next hop; and an address of the router that goes out first is, if it is not source-specific, one from
      whose low half the receiver learns the id. */
  lemma OrderIsOfEncoding(u: Update)
    requires u.Valid()
    ensures var e := Entry(u.id, PairOf(u));
            && (IsV4(e) <==> u.V4()) && (IsV4(e) ==> NhPart(FRESH, u) != [])
            && (IdFlag(FRESH, u) <==> IsIdAddress(e) && !u.Specific())
            && (IsIdAddress(e) && !u.Specific() ==> IdPart(FRESH, u) == [])
  {
  }

  /** Any prefix pair that an update may carry may be buffered. */
  lemma ProperExactly(u: Update)
    ensures u.Valid() <==>
              Proper(PairOf(u)) && |u.id| == 8 && |u.ipv4| == 4 && (u.channels.Some? ==> |u.channels.value| <= 20)
  {
  }
}
