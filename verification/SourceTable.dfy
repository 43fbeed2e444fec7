/** The order of the source table (source.c): what its comparison distinguishes and what it confuses. */
module SourceOrder {
  import opened Common
  import Lex

  datatype Key = Key(id: seq<U8>, prefix: seq<U8>, plen: U8, srcPrefix: seq<U8>, srcPlen: U8) {
    ghost predicate Valid() { |id| == 8 && |prefix| == 16 && |srcPrefix| == 16 }
  }

  /** source_compare */
  function SourceCompare(k: Key, s: Key): int
    requires k.Valid() && s.Valid()
  {
    var rc := Lex.Compare(k.id, s.id);
    if rc != 0 then rc
    else if k.plen < s.plen then -1
    else if k.plen > s.plen then 1
    else
      var rp := Lex.Compare(k.prefix, s.prefix);
      if rp != 0 then rp
      else
        var rs := Lex.Compare(k.srcPrefix, s.srcPrefix);
        if rs != 0 then rs else 0
  }

  const WIDTH := 41

  /** What the comparison looks at: everything but the source prefix length. */
  function Vector(k: Key): (v: seq<int>)
    requires k.Valid()
    ensures |v| == WIDTH
  {
    k.id + ([k.plen as int] + (k.prefix + k.srcPrefix))
  }

  lemma CompareIsVectorOrder(k: Key, s: Key)
    requires k.Valid() && s.Valid()
    ensures SourceCompare(k, s) == Lex.Compare(Vector(k), Vector(s))
  {
    Lex.Concat(k.id, s.id, [k.plen] + (k.prefix + k.srcPrefix), [s.plen] + (s.prefix + s.srcPrefix));
    Lex.Concat([k.plen], [s.plen], k.prefix + k.srcPrefix, s.prefix + s.srcPrefix);
    Lex.Concat(k.prefix, s.prefix, k.srcPrefix, s.srcPrefix);
    Lex.One(k.plen, s.plen);
  }

  /** Two keys are one to the table exactly when they agree on everything but the source prefix length. */
  lemma ConfusesExactly(k: Key, s: Key)
    requires k.Valid() && s.Valid()
    ensures Vector(k) == Vector(s) <==> k.(srcPlen := s.srcPlen) == s
  {
    if Vector(k) == Vector(s) {
      assert k.id == Vector(k)[..8] && s.id == Vector(s)[..8];
      assert k.plen == Vector(k)[8] && s.plen == Vector(s)[8];
      assert k.prefix == Vector(k)[9..25] && s.prefix == Vector(s)[9..25];
      assert k.srcPrefix == Vector(k)[25..] && s.srcPrefix == Vector(s)[25..];
    }
  }
}

/** The pair kept for a source, over the whole life of its entry. */
module SourceHistory {
  import opened Common
  import opened Feasibility
  import Seqno

  const SOURCE_GC_TIME := 200

  /** The fields of struct source that update_source writes. */
  datatype Entry = Entry(seqno: U16, metric: U16, time: int)

  predicate Stale(time: int, now: int) { time < now - SOURCE_GC_TIME }

  /** update_source */
  function Update(e: Entry, now: int, seqno: U16, metric: U16): Entry {
    if metric >= INFINITY then e
    else if Supersedes(Stale(e.time, now), e.seqno, e.metric, seqno, metric) then Entry(seqno, metric, now)
    else e.(time := now)
  }

  /** An entry is stale from the second on in which SOURCE_GC_TIME seconds, two hundred, have passed and one more;
      until it is written, it stays so. */
  lemma StaleFrom(time: int, now: int)
    ensures now <= time + 200 ==> !Stale(time, now)
    ensures now > time + 200 ==> Stale(time, now)
    ensures forall later :: later >= now && Stale(time, now) ==> Stale(time, later)
  {
  }

  /** A finite advertisement makes an entry fresh, whatever it says; an infinite one leaves it as it was. */
  lemma FreshOnceWritten(e: Entry, now: int, seqno: U16, metric: U16, later: int)
    ensures metric < INFINITY && later <= now + 200 ==> !Stale(Update(e, now, seqno, metric).time, later)
    ensures metric >= INFINITY ==> Update(e, now, seqno, metric) == e
    ensures metric < INFINITY && now > e.time + 200 ==>
              Update(e, now, seqno, metric).seqno == seqno && Update(e, now, seqno, metric).metric == metric
  {
  }

  /** An advertisement, with its sequence number before it is cut to 16 bits. */
  datatype Advert = Advert(at: int, seqno: int, metric: U16)

  function Replay(e: Entry, run: seq<Advert>): Entry {
    if run == [] then e
    else
      var last := run[|run| - 1];
      Update(Replay(e, run[..|run| - 1]), last.at, Seqno.Wire(last.seqno), last.metric)
  }

  /** When the entry was last written. */
  function LastHeard(time: int, run: seq<Advert>): int {
    if run == [] then time
    else
      var last := run[|run| - 1];
      if last.metric < INFINITY then last.at else LastHeard(time, run[..|run| - 1])
  }

  /** The pairs heard since the entry was last found stale: all of them, and the initial one, if it never was. */
  function Candidates(d: Distance, time: int, run: seq<Advert>): seq<Distance> {
    if run == [] then [d]
    else
      var last, before := run[|run| - 1], run[..|run| - 1];
      if last.metric >= INFINITY then Candidates(d, time, before)
      else if Stale(LastHeard(time, before), last.at) then [Distance(last.seqno, last.metric)]
      else Candidates(d, time, before) + [Distance(last.seqno, last.metric)]
  }

  function Finite(run: seq<Advert>): seq<Distance> {
    if run == [] then []
    else
      var last := run[|run| - 1];
      Finite(run[..|run| - 1]) + if last.metric < INFINITY then [Distance(last.seqno, last.metric)] else []
  }

  /** Two finite advertisements are never more than SOURCE_GC_TIME apart. */
  predicate NoGap(time: int, run: seq<Advert>) {
    run == []
    || var last, before := run[|run| - 1], run[..|run| - 1];
       NoGap(time, before) && (last.metric < INFINITY ==> !Stale(LastHeard(time, before), last.at))
  }

  ghost predicate Windowed(all: seq<Distance>) {
    forall a, b :: a in all && b in all ==> -0x8000 < a.seqno - b.seqno < 0x8000
  }

  ghost predicate IsBest(d: Distance, all: seq<Distance>) {
    d in all && forall c :: c in all ==> AtLeast(d, c)
  }

  lemma {:induction false} CandidatesAreHeard(d: Distance, time: int, run: seq<Advert>)
    ensures forall c :: c in Candidates(d, time, run) ==> c in [d] + Finite(run)
    ensures NoGap(time, run) ==> Candidates(d, time, run) == [d] + Finite(run)
  {
    if run != [] {
      CandidatesAreHeard(d, time, run[..|run| - 1]);
    }
  }

  /** Adding a pair to those heard: the better one stays the best. */
  lemma BestOfMore(d: Distance, all: seq<Distance>, c: Distance)
    requires IsBest(d, all) && Windowed(all + [c]) && c.metric < INFINITY
    ensures IsBest(Advertised(d, c.seqno, c.metric), all + [c])
  {
    assert c in all + [c] && d in all + [c];
    AdvertisedIsBest(d, c.seqno, c.metric);
  }

  /** The entry, last written at `time`, stores the wire form of a pair. */
  predicate Stores(e: Entry, d: Distance, time: int) {
    e == Entry(Seqno.Wire(d.seqno), d.metric, time)
  }

  /** The stored pair is the best of those heard since the entry was last stale. */
  lemma {:induction false} StoresTheBest(e: Entry, d: Distance, run: seq<Advert>)
    requires Stores(e, d, e.time) && Windowed([d] + Finite(run))
    ensures exists best ::
              IsBest(best, Candidates(d, e.time, run)) && Stores(Replay(e, run), best, LastHeard(e.time, run))
  {
    if run == [] {
      assert IsBest(d, Candidates(d, e.time, run));
    } else {
      var last, before := run[|run| - 1], run[..|run| - 1];
      assert forall c :: c in [d] + Finite(before) ==> c in [d] + Finite(run);
      StoresTheBest(e, d, before);
      var best :| IsBest(best, Candidates(d, e.time, before)) &&
                  Stores(Replay(e, before), best, LastHeard(e.time, before));
      var better := NextBest(d, e.time, run, best);
      assert IsBest(better, Candidates(d, e.time, run)) && Stores(Replay(e, run), better, LastHeard(e.time, run)) by {
        hide IsBest, Candidates, Windowed;
      }
    }
  }

  /** The pair that is stored after one more advertisement. */
  function Next(best: Distance, stale: bool, last: Advert): Distance {
    if last.metric >= INFINITY then best
    else if stale then Distance(last.seqno, last.metric)
    else Advertised(best, last.seqno, last.metric)
  }

  lemma NextBest(d: Distance, time: int, run: seq<Advert>, best: Distance) returns (better: Distance)
    requires Windowed([d] + Finite(run)) && run != []
    requires IsBest(best, Candidates(d, time, run[..|run| - 1]))
    ensures better == Next(best, Stale(LastHeard(time, run[..|run| - 1]), run[|run| - 1].at), run[|run| - 1])
    ensures IsBest(better, Candidates(d, time, run))
  {
    var last, before := run[|run| - 1], run[..|run| - 1];
    better := Next(best, Stale(LastHeard(time, before), last.at), last);
    if last.metric < INFINITY && !Stale(LastHeard(time, before), last.at) {
      CandidatesAreHeard(d, time, before);
      BestOfMore(best, Candidates(d, time, before), Distance(last.seqno, last.metric));
    }
  }

  /** Without a gap of SOURCE_GC_TIME the stored pair is the best of the initial one and all that were ever
      advertised, so it never gets worse: a later pair is at least as good as an earlier one. */
  lemma {:induction false} NeverWorsens(e: Entry, d: Distance, run: seq<Advert>, k: nat)
    requires Stores(e, d, e.time) && Windowed([d] + Finite(run)) && NoGap(e.time, run) && k <= |run|
    ensures exists early, late ::
              && Stores(Replay(e, run[..k]), early, LastHeard(e.time, run[..k]))
              && Stores(Replay(e, run), late, LastHeard(e.time, run))
              && IsBest(early, [d] + Finite(run[..k])) && IsBest(late, [d] + Finite(run)) && AtLeast(late, early)
  {
    PrefixHeard(e.time, run, k);
    StoresTheBest(e, d, run[..k]);
    StoresTheBest(e, d, run);
    CandidatesAreHeard(d, e.time, run[..k]);
    CandidatesAreHeard(d, e.time, run);
    var early :| IsBest(early, Candidates(d, e.time, run[..k])) &&
                 Stores(Replay(e, run[..k]), early, LastHeard(e.time, run[..k]));
    var late :| IsBest(late, Candidates(d, e.time, run)) && Stores(Replay(e, run), late, LastHeard(e.time, run));
    assert AtLeast(late, early);
  }

  lemma {:induction false} PrefixHeard(time: int, run: seq<Advert>, k: nat)
    requires k <= |run|
    ensures forall c :: c in Finite(run[..k]) ==> c in Finite(run)
    ensures NoGap(time, run) ==> NoGap(time, run[..k])
  {
    if k == |run| {
      assert run[..k] == run;
    } else {
      assert run[..|run| - 1][..k] == run[..k];
      PrefixHeard(time, run[..|run| - 1], k);
    }
  }
}

/** The source table seen from the routes: maps from keys to the stored pairs and to the route counts. */
module SourceMaps {
  import opened Common
  import opened SourceOrder
  import SourceHistory

  /** What expire_sources keeps: a source that a route points to, or one heard of recently. */
  predicate Survives(routeCount: nat, time: int, now: int) {
    routeCount != 0 || !SourceHistory.Stale(time, now)
  }

  /** A source to which no route points goes two hundred seconds after it was last heard of; one to which a route
      points never does. */
  lemma SurvivesExactly(routeCount: nat, time: int, now: int)
    ensures routeCount > 0 ==> Survives(routeCount, time, now)
    ensures routeCount == 0 ==> (Survives(routeCount, time, now) <==> now - time <= 200)
  {
  }

  /** An entry once a clock that was stepped back has been made up for. */
  function Clamped(e: SourceHistory.Entry, now: int): SourceHistory.Entry {
    e.(time := Min(e.time, now))
  }

  /** Times that lie ahead become the present; pairs stay. */
  lemma ClampedExactly(e: SourceHistory.Entry, now: int)
    ensures var f := Clamped(e, now);
            f.seqno == e.seqno && f.metric == e.metric && f.time == if e.time > now then now else e.time
  {
  }

  function KeysLeft(entries: map<Key, SourceHistory.Entry>, counts: map<Key, nat>, now: int): set<Key>
    requires entries.Keys == counts.Keys
  {
    set k | k in entries && Survives(counts[k], entries[k].time, now)
  }

  /** What expire_sources leaves. */
  function EntriesLeft(entries: map<Key, SourceHistory.Entry>, counts: map<Key, nat>, now: int)
    : map<Key, SourceHistory.Entry>
    requires entries.Keys == counts.Keys
  {
    map k | k in KeysLeft(entries, counts, now) :: Clamped(entries[k], now)
  }

  function CountsLeft(entries: map<Key, SourceHistory.Entry>, counts: map<Key, nat>, now: int): map<Key, nat>
    requires entries.Keys == counts.Keys
  {
    map k | k in KeysLeft(entries, counts, now) :: counts[k]
  }

  /** One route more points to the source. */
  ghost predicate OneMore(before: map<Key, nat>, after: map<Key, nat>, key: Key) {
    key in before && after == before[key := before[key] + 1]
  }

  /** The fields of one source. */
  datatype Record = Record(key: Key, entry: SourceHistory.Entry, routeCount: nat)

  predicate Distinct(rs: seq<Record>) {
    forall i, j :: 0 <= i < j < |rs| ==> rs[i].key != rs[j].key
  }

  ghost function Entries(rs: seq<Record>): map<Key, SourceHistory.Entry>
    requires Distinct(rs)
  {
    map i | 0 <= i < |rs| :: rs[i].key := rs[i].entry
  }

  ghost function Counts(rs: seq<Record>): (counts: map<Key, nat>)
    requires Distinct(rs)
    ensures counts.Keys == Entries(rs).Keys
  {
    map i | 0 <= i < |rs| :: rs[i].key := rs[i].routeCount
  }

  ghost predicate HasKey(rs: seq<Record>, k: Key) {
    exists i :: 0 <= i < |rs| && rs[i].key == k
  }

  /** The maps hold what is in the list. */
  ghost predicate Lists(rs: seq<Record>, entries: map<Key, SourceHistory.Entry>, counts: map<Key, nat>) {
    && entries.Keys == counts.Keys
    && (forall k :: k in entries ==> HasKey(rs, k))
    && (forall i :: 0 <= i < |rs| ==> rs[i].key in entries)
    && (forall i :: 0 <= i < |rs| ==> entries[rs[i].key] == rs[i].entry && counts[rs[i].key] == rs[i].routeCount)
  }

  lemma Listed(rs: seq<Record>, i: nat)
    requires Distinct(rs) && i < |rs|
    ensures rs[i].key in Entries(rs)
  {
  }

  lemma ListsItself(rs: seq<Record>)
    requires Distinct(rs)
    ensures Lists(rs, Entries(rs), Counts(rs))
  {
  }

  lemma ListsExactly(rs: seq<Record>, entries: map<Key, SourceHistory.Entry>, counts: map<Key, nat>)
    requires Distinct(rs) && Lists(rs, entries, counts)
    ensures entries == Entries(rs) && counts == Counts(rs)
  {
    ListsItself(rs);
    SameMap(rs, entries, Entries(rs), counts, Counts(rs));
  }

  lemma SameMap(rs: seq<Record>, e: map<Key, SourceHistory.Entry>, f: map<Key, SourceHistory.Entry>,
                c: map<Key, nat>, d: map<Key, nat>)
    requires Lists(rs, e, c) && Lists(rs, f, d)
    ensures e == f && c == d
  {
    forall k | k in e ensures k in f && e[k] == f[k] && c[k] == d[k] {
      assert HasKey(rs, k);
    }
    forall k | k in f ensures k in e {
      assert HasKey(rs, k);
    }
    assert forall k :: k in c <==> k in e;
  }

  /** The lists are the same but for `r`, which is new or changed. */
  ghost predicate Differs(rs: seq<Record>, us: seq<Record>, r: Record) {
    && HasKey(us, r.key)
    && (forall j :: 0 <= j < |us| ==> us[j] == r || (us[j].key != r.key && us[j] in rs))
    && (forall i :: 0 <= i < |rs| ==> rs[i].key == r.key || HasKey(us, rs[i].key))
  }

  lemma DiffersMaps(rs: seq<Record>, us: seq<Record>, r: Record)
    requires Distinct(rs) && Distinct(us) && Differs(rs, us, r)
    ensures Entries(us) == Entries(rs)[r.key := r.entry] && Counts(us) == Counts(rs)[r.key := r.routeCount]
  {
    var e, c := Entries(rs), Counts(rs);
    ListsItself(rs);
    hide Entries, Counts;
    assert Lists(us, e[r.key := r.entry], c[r.key := r.routeCount]) by {
      forall k | k in e && k != r.key ensures HasKey(us, k) {
        assert HasKey(rs, k);
      }
    }
    ListsExactly(us, e[r.key := r.entry], c[r.key := r.routeCount]);
  }

  lemma Changed(rs: seq<Record>, us: seq<Record>, i: nat, r: Record)
    requires Distinct(rs) && i < |rs| == |us| && r.key == rs[i].key && us[i] == r
    requires forall j :: 0 <= j < |rs| && j != i ==> us[j] == rs[j]
    ensures Distinct(us) && r.key in Entries(rs) && r.key in Counts(rs)
    ensures Entries(rs)[r.key] == rs[i].entry && Counts(rs)[r.key] == rs[i].routeCount
    ensures Entries(us) == Entries(rs)[r.key := r.entry] && Counts(us) == Counts(rs)[r.key := r.routeCount]
  {
    assert forall j :: 0 <= j < |rs| ==> us[j].key == rs[j].key;
    hide Entries, Counts;
    assert Differs(rs, us, r);
    DiffersMaps(rs, us, r);
    ListsItself(rs);
  }

  lemma CountedMore(before: map<Key, nat>, after: map<Key, nat>, key: Key, n: nat)
    requires key in before && before[key] + 1 == n && after == before[key := n]
    ensures OneMore(before, after, key)
  {
  }

  lemma CountedLess(before: map<Key, nat>, after: map<Key, nat>, key: Key, n: nat)
    requires key in before && before[key] == n + 1 && after == before[key := n]
    ensures OneMore(after, before, key)
  {
  }

  lemma SameValue<V>(m: map<Key, V>, k: Key)
    requires k in m
    ensures m[k := m[k]] == m
  {
  }

  ghost predicate Spliced(rs: seq<Record>, us: seq<Record>, n: nat, r: Record) {
    && n <= |rs| && |us| == |rs| + 1 && us[n] == r
    && (forall j :: 0 <= j < n ==> us[j] == rs[j])
    && (forall j :: n < j < |us| ==> us[j] == rs[j - 1])
  }

  /** Where an entry came from. */
  function Before(n: nat, j: int): int { if j < n then j else j - 1 }

  lemma SplicedAt(rs: seq<Record>, us: seq<Record>, n: nat, r: Record, j: nat)
    requires Spliced(rs, us, n, r) && j < |us|
    ensures n < |us| == |rs| + 1 && if j == n then us[j] == r else us[j] == rs[Before(n, j)] && us[j] in rs
  {
  }

  lemma SplicedDistinct(rs: seq<Record>, us: seq<Record>, n: nat, r: Record)
    requires Distinct(rs) && Spliced(rs, us, n, r) && forall i :: 0 <= i < |rs| ==> rs[i].key != r.key
    ensures Distinct(us)
  {
    hide Spliced;
    forall j, k | 0 <= j < k < |us| ensures us[j].key != us[k].key {
      SplicedAt(rs, us, n, r, j);
      SplicedAt(rs, us, n, r, k);
    }
  }

  lemma SplicedDiffers(rs: seq<Record>, us: seq<Record>, n: nat, r: Record)
    requires Spliced(rs, us, n, r) && forall i :: 0 <= i < |rs| ==> rs[i].key != r.key
    ensures Differs(rs, us, r)
  {
    forall j | 0 <= j < |us| ensures us[j] == r || (us[j].key != r.key && us[j] in rs) {
      SplicedAt(rs, us, n, r, j);
    }
    forall i | 0 <= i < |rs| ensures HasKey(us, rs[i].key) {
      SplicedAt(rs, us, n, r, if i < n then i else i + 1);
    }
    hide Spliced;
  }

  lemma Inserted(rs: seq<Record>, us: seq<Record>, n: nat, r: Record)
    requires Distinct(rs) && Spliced(rs, us, n, r) && r.key !in Entries(rs)
    ensures Distinct(us)
    ensures Entries(us) == Entries(rs)[r.key := r.entry] && Counts(us) == Counts(rs)[r.key := r.routeCount]
  {
    forall i | 0 <= i < |rs| ensures rs[i].key != r.key {
      ListsItself(rs);
    }
    hide *;
    SplicedDistinct(rs, us, n, r);
    SplicedDiffers(rs, us, n, r);
    DiffersMaps(rs, us, r);
  }

  predicate Left(r: Record, u: Record, now: int) {
    Survives(r.routeCount, r.entry.time, now) && u == r.(entry := Clamped(r.entry, now))
  }

  ghost predicate Survived(rs: seq<Record>, u: Record, now: int) {
    exists i :: 0 <= i < |rs| && Left(rs[i], u, now)
  }

  /** What expire_sources leaves of a list: the survivors. */
  ghost predicate Expired(rs: seq<Record>, us: seq<Record>, now: int) {
    && (forall j :: 0 <= j < |us| ==> Survived(rs, us[j], now))
    && (forall i :: 0 <= i < |rs| && Survives(rs[i].routeCount, rs[i].entry.time, now) ==> HasKey(us, rs[i].key))
  }

  lemma ExpiredMaps(rs: seq<Record>, us: seq<Record>, now: int)
    requires Distinct(rs) && Distinct(us) && Expired(rs, us, now)
    ensures Entries(us) == EntriesLeft(Entries(rs), Counts(rs), now)
    ensures Counts(us) == CountsLeft(Entries(rs), Counts(rs), now)
  {
    var e, c := Entries(rs), Counts(rs);
    ListsItself(rs);
    hide Entries, Counts, Survives, Clamped;
    forall j | 0 <= j < |us|
      ensures us[j].key in KeysLeft(e, c, now)
      ensures us[j].entry == Clamped(e[us[j].key], now) && us[j].routeCount == c[us[j].key]
    {
      assert Survived(rs, us[j], now);
    }
    forall k | k in KeysLeft(e, c, now) ensures HasKey(us, k) {
      assert HasKey(rs, k);
    }
    ListsExactly(us, EntriesLeft(e, c, now), CountsLeft(e, c, now));
  }
}

/** The sorted table of sources. */
module SourceTable {
  import opened Common
  import opened SourceOrder
  import opened SourceMaps
  import Feasibility
  import Lex
  import SourceHistory

  /** struct source */
  class Source {
    const key: Key
    var seqno: U16
    var metric: U16
    var routeCount: nat
    var time: int

    constructor (key: Key, seqno: U16, now: int)
      ensures this.key == key && Entry() == SourceHistory.Entry(seqno, INFINITY, now) && routeCount == 0
    {
      this.key := key;
      this.seqno, this.metric, this.routeCount, this.time := seqno, INFINITY, 0, now;
    }

    function Entry(): SourceHistory.Entry
      reads `seqno, `metric, `time
    {
      SourceHistory.Entry(seqno, metric, time)
    }

    function Record(): SourceMaps.Record
      reads this
    {
      SourceMaps.Record(key, Entry(), routeCount)
    }

    method Update(now: int, seqno: U16, metric: U16)
      modifies `seqno, `metric, `time
      ensures Entry() == SourceHistory.Update(old(Entry()), now, seqno, metric)
    {
      if metric >= INFINITY {
        return;
      }
      if Feasibility.Supersedes(SourceHistory.Stale(time, now), this.seqno, this.metric, seqno, metric) {
        this.seqno := seqno;
        this.metric := metric;
      }
      time := now;
    }
  }

  /** The keys of a list of sources, as the table compares them. */
  ghost function Vectors(s: seq<Source>): (v: seq<seq<int>>)
    requires forall i :: 0 <= i < |s| ==> s[i].key.Valid()
    ensures |v| == |s|
  {
    seq(|s|, i requires 0 <= i < |s| => Vector(s[i].key))
  }

  ghost predicate Ordered(s: seq<Source>) {
    && (forall i :: 0 <= i < |s| ==> s[i].key.Valid())
    && Lex.Sorted(Vectors(s), WIDTH)
  }

  /** `n` is where a source with this key would be inserted. */
  ghost predicate Belongs(s: seq<Source>, key: Key, n: int) {
    Ordered(s) && key.Valid() && Lex.Slot(Vectors(s), WIDTH, Vector(key), n)
  }

  lemma InsertOrdered(s: seq<Source>, src: Source, n: nat)
    requires Belongs(s, src.key, n)
    ensures Ordered(s[..n] + [src] + s[n..])
  {
    var t := s[..n] + [src] + s[n..];
    assert forall i :: 0 <= i < |t| ==> t[i].key.Valid();
    assert Vectors(t) == Vectors(s)[..n] + [Vector(src.key)] + Vectors(s)[n..];
    Lex.InsertSorted(Vectors(s), WIDTH, Vector(src.key), n);
  }

  lemma OrderedDistinct(s: seq<Source>)
    requires Ordered(s)
    ensures forall i, j :: 0 <= i < j < |s| ==> s[i] != s[j]
  {
    forall i, j | 0 <= i < j < |s| ensures s[i] != s[j] {
      assert Lex.Compare(Vectors(s)[i], Vectors(s)[j]) < 0;
    }
  }

  /** The indices marked, in order. */
  function Kept(keep: seq<bool>): (at: seq<nat>)
    ensures forall i :: 0 <= i < |at| ==> at[i] < |keep|
  {
    if keep == [] then []
    else Kept(keep[..|keep| - 1]) + if keep[|keep| - 1] then [|keep| - 1] else []
  }

  lemma {:induction false} KeptExactly(keep: seq<bool>)
    ensures forall i, j :: 0 <= i < j < |Kept(keep)| ==> Kept(keep)[i] < Kept(keep)[j]
    ensures forall k: nat :: k in Kept(keep) <==> k < |keep| && keep[k]
  {
    if keep != [] {
      KeptExactly(keep[..|keep| - 1]);
    }
  }

  ghost function Chosen(s: seq<Source>, at: seq<nat>): (t: seq<Source>)
    requires forall i :: 0 <= i < |at| ==> at[i] < |s|
    ensures |t| == |at|
  {
    seq(|at|, i requires 0 <= i < |at| => s[at[i]])
  }

  lemma IsSplice(t: seq<Source>, s: seq<Source>, src: Source, n: nat)
    requires n <= |s| && |t| == |s| + 1
    requires forall k :: 0 <= k < n ==> t[k] == s[k]
    requires t[n] == src
    requires forall k :: n < k < |t| ==> t[k] == s[k - 1]
    ensures t == s[..n] + [src] + s[n..]
  {
  }

  lemma NothingKept(s: seq<Source>, keep: seq<bool>)
    ensures Chosen(s, Kept(keep[..0])) == []
  {
  }

  lemma KeptOneMore(s: seq<Source>, keep: seq<bool>, i: nat)
    requires i < |keep| <= |s|
    ensures Chosen(s, Kept(keep[..i + 1])) == Chosen(s, Kept(keep[..i])) + if keep[i] then [s[i]] else []
  {
    assert keep[..i + 1][..i] == keep[..i];
  }

  lemma ChosenSorted(s: seq<Source>, keep: seq<bool>)
    requires Ordered(s) && |keep| == |s|
    ensures Ordered(Chosen(s, Kept(keep)))
  {
    KeptExactly(keep);
    Lex.SubsequenceSorted(Vectors(s), WIDTH, Vectors(Chosen(s, Kept(keep))), Kept(keep));
  }

  lemma ChosenExactly(s: seq<Source>, keep: seq<bool>)
    requires |keep| == |s| && forall i, j :: 0 <= i < j < |s| ==> s[i] != s[j]
    ensures forall i :: 0 <= i < |s| ==> (s[i] in Chosen(s, Kept(keep)) <==> keep[i])
  {
    var at := Kept(keep);
    var t := Chosen(s, at);
    KeptExactly(keep);
    hide Kept, Chosen;
    forall i: nat | i < |s| && keep[i] ensures s[i] in t {
      assert i in at;
      var j :| 0 <= j < |at| && at[j] == i;
      assert t[j] == s[i] by { ChosenAt(s, at, j); }
    }
    forall i: nat | i < |s| && s[i] in t ensures keep[i] {
      var j :| 0 <= j < |t| && t[j] == s[i];
      ChosenAt(s, at, j);
      assert at[j] in at && s[at[j]] == s[i];
    }
  }

  lemma ChosenAt(s: seq<Source>, at: seq<nat>, j: nat)
    requires j < |at| && forall i :: 0 <= i < |at| ==> at[i] < |s|
    ensures Chosen(s, at)[j] == s[at[j]]
  {
  }

  /** Compaction keeps the order, drops nothing that is marked and keeps nothing that is not. */
  lemma ChosenOrdered(s: seq<Source>, keep: seq<bool>)
    requires Ordered(s) && |keep| == |s|
    ensures Ordered(Chosen(s, Kept(keep)))
    ensures forall i :: 0 <= i < |s| ==> (s[i] in Chosen(s, Kept(keep)) <==> keep[i])
    ensures forall x :: x in Chosen(s, Kept(keep)) ==> x in s
  {
    ChosenSorted(s, keep);
    OrderedDistinct(s);
    ChosenExactly(s, keep);
  }

  /** A source other than the one with this key is what the table finds under it. */
  ghost predicate Aliased(s: seq<Source>, key: Key) {
    exists i :: 0 <= i < |s| && s[i].key != key && s[i].key.(srcPlen := key.srcPlen) == key
  }

  lemma FoundExactly(s: seq<Source>, key: Key, i: nat)
    requires Ordered(s) && key.Valid() && i < |s| && Vectors(s)[i] == Vector(key)
    ensures s[i].key == key <==> !Aliased(s, key)
  {
    ConfusesExactly(key, s[i].key);
    forall j | 0 <= j < |s| && s[j].key.(srcPlen := key.srcPlen) == key ensures j == i {
      ConfusesExactly(key, s[j].key);
      assert Vectors(s)[j] == Vectors(s)[i];
    }
  }

  lemma MissingExactly(s: seq<Source>, key: Key, n: int)
    requires Belongs(s, key, n)
    ensures Vector(key) !in Vectors(s) && !Aliased(s, key)
  {
    Lex.SlotUnique(Vectors(s), WIDTH, Vector(key), n);
    forall i | 0 <= i < |s| ensures s[i].key.(srcPlen := key.srcPlen) != key {
      ConfusesExactly(key, s[i].key);
      assert Vectors(s)[i] in Vectors(s);
    }
  }

  /** What a list of sources holds. */
  ghost function Records(s: seq<Source>): (rs: seq<Record>)
    reads s
    ensures |rs| == |s| && forall i :: 0 <= i < |s| ==> rs[i] == s[i].Record()
  {
    seq(|s|, i requires 0 <= i < |s| reads s => s[i].Record())
  }

  lemma OrderedRecords(s: seq<Source>)
    requires Ordered(s)
    ensures Distinct(Records(s))
  {
    forall i, j | 0 <= i < j < |s| ensures s[i].key != s[j].key {
      assert Lex.Compare(Vectors(s)[i], Vectors(s)[j]) < 0;
    }
  }

  lemma SplicedRecords(s: seq<Source>, rs: seq<Record>, us: seq<Record>, src: Source, n: nat)
    requires n <= |s| == |rs| && us == Records(s[..n] + [src] + s[n..])
    requires forall i :: 0 <= i < |s| ==> rs[i] == s[i].Record()
    ensures Spliced(rs, us, n, src.Record())
  {
  }

  lemma NewKey(s: seq<Source>, rs: seq<Record>, key: Key)
    requires Ordered(s) && key.Valid() && Vector(key) !in Vectors(s)
    requires Distinct(rs) && |rs| == |s| && forall i :: 0 <= i < |s| ==> rs[i].key == s[i].key
    ensures key !in SourceMaps.Entries(rs)
  {
    forall i | 0 <= i < |s| ensures rs[i].key != key {
      assert Vectors(s)[i] == Vector(s[i].key);
      assert Vectors(s)[i] in Vectors(s);
    }
  }

  /** Which sources are to be kept, by the times they had. */
  ghost predicate Judged(s: seq<Source>, keep: seq<bool>, times: seq<int>, now: int)
    reads s`routeCount
  {
    |keep| == |times| == |s| && forall k :: 0 <= k < |s| ==> keep[k] == Survives(s[k].routeCount, times[k], now)
  }

  /** The times of the first `i` sources are not in the future; no other time has changed for another reason. */
  ghost predicate Forwarded(s: seq<Source>, times: seq<int>, i: int, now: int)
    reads s`time
  {
    |times| == |s| && forall k :: 0 <= k < |s| ==>
      s[k].time == Min(times[k], now) || (k >= i && s[k].time == times[k])
  }

  /** Whether a clock that was stepped back has been made up for is no matter. */
  lemma SurvivesClamped(routeCount: nat, time: int, now: int)
    ensures Survives(routeCount, time, now) == Survives(routeCount, Min(time, now), now)
  {
  }

  /** One source is not what it was. */
  lemma OneChanged(s: seq<Source>, rs: seq<Record>, src: Source, was: Record)
    requires Ordered(s) && src in s && |rs| == |s| && was.key == src.key
    requires forall i :: 0 <= i < |s| ==> if s[i] == src then rs[i] == was else rs[i] == s[i].Record()
    ensures Distinct(rs) && Distinct(Records(s))
    ensures var e, c := SourceMaps.Entries(rs), SourceMaps.Counts(rs);
            && src.key in e && e[src.key] == was.entry && src.key in c && c[src.key] == was.routeCount
            && SourceMaps.Entries(Records(s)) == e[src.key := src.Entry()]
            && SourceMaps.Counts(Records(s)) == c[src.key := src.routeCount]
  {
    var i: nat :| i < |s| && s[i] == src;
    OrderedDistinct(s);
    OrderedRecords(s);
    var us := Records(s);
    assert forall j :: 0 <= j < |s| && j != i ==> us[j] == rs[j];
    SameKeys(us, rs);
    hide *;
    Changed(rs, us, i, src.Record());
  }

  lemma SameKeys(us: seq<Record>, rs: seq<Record>)
    requires Distinct(us) && |us| == |rs| && forall j :: 0 <= j < |rs| ==> rs[j].key == us[j].key
    ensures Distinct(rs)
  {
  }

  class Table {
    var sources: array<Source?>
    var slots: nat

    ghost predicate Valid()
      reads this, sources
    {
      Filled() && Ordered(Contents())
    }

    ghost predicate Filled()
      reads this, sources
    {
      slots <= sources.Length && forall i :: 0 <= i < slots ==> sources[i] != null
    }

    ghost function Contents(): (s: seq<Source>)
      requires Filled()
      reads this, sources
    {
      sources[..slots]
    }

    /** The stored pairs. */
    ghost function Entries(): map<Key, SourceHistory.Entry>
      requires Valid()
      reads this, sources, Contents()
    {
      OrderedRecords(Contents());
      SourceMaps.Entries(Records(Contents()))
    }

    /** The route counts. */
    ghost function Counts(): (counts: map<Key, nat>)
      requires Valid()
      reads this, sources, Contents()
      ensures counts.Keys == Entries().Keys
    {
      OrderedRecords(Contents());
      SourceMaps.Counts(Records(Contents()))
    }

    constructor ()
      ensures Valid() && Contents() == [] && fresh(sources)
    {
      sources := new Source?[0];
      slots := 0;
    }

    /** find_source_slot: the index of the key, or -1 and the place where it belongs. */
    method FindSourceSlot(key: Key) returns (i: int, n: int)
      requires Valid() && key.Valid()
      ensures i >= 0 ==> i < slots && Vectors(Contents())[i] == Vector(key)
      ensures i < 0 ==> i == -1 && Belongs(Contents(), key, n)
    {
      if slots < 1 {
        return -1, 0;
      }
      ghost var vectors := Vectors(Contents());
      var p, g := 0, slots - 1;
      while p <= g
        invariant 0 <= p <= slots && -1 <= g < slots && p <= g + 1
        invariant Lex.Between(vectors, WIDTH, Vector(key), p, g)
        decreases g - p
      {
        var m := (p + g) / 2;
        var c := SourceCompare(key, sources[m].key);
        CompareIsVectorOrder(key, sources[m].key);
        assert sources[m] == Contents()[m] && vectors[m] == Vector(sources[m].key);
        Lex.Narrow(vectors, WIDTH, Vector(key), p, m, g);
        if c == 0 {
          return m, 0;
        } else if c < 0 {
          g := m - 1;
        } else {
          p := m + 1;
        }
      }
      return -1, p;
    }

    /** resize_source_table: the contents stay, with room for `room` sources. */
    method Resize(room: nat)
      requires Filled() && slots <= room
      modifies `sources
      ensures Filled() && fresh(sources) && sources.Length == room && Contents() == old(Contents())
    {
      var larger := new Source?[room];
      forall k | 0 <= k < slots { larger[k] := sources[k]; }
      sources := larger;
    }

    /** The part of find_source that adds an entry. */
    method Insert(src: Source, n: nat)
      requires Filled() && n <= slots
      modifies this, sources
      ensures Filled() && (sources == old(sources) || fresh(sources))
      ensures Contents() == old(Contents())[..n] + [src] + old(Contents())[n..]
    {
      hide Ordered;
      if slots >= sources.Length {
        Resize(if sources.Length < 1 then 8 else 2 * sources.Length);
      }
      ghost var before: seq<Source> := Contents();
      Shift(n);
      sources[n] := src;
      slots := slots + 1;
      IsSplice(Contents(), before, src, n);
    }

    /** The memmove of find_source. */
    method Shift(n: nat)
      requires n <= slots < sources.Length
      modifies sources
      ensures forall k {:trigger sources[k]} :: n < k <= slots ==> sources[k] == old(sources[k - 1])
      ensures forall k :: 0 <= k < n ==> sources[k] == old(sources[k])
    {
      forall k | n <= k < slots { sources[k + 1] := sources[k]; }
    }

    /** One source has changed, and nothing else. */
    twostate lemma Touched(src: Source)
      requires old(Valid()) && slots == old(slots) && sources == old(sources) && sources[..] == old(sources[..])
      requires src in old(Contents())
      requires forall s :: s in old(Contents()) && s != src ==> s.Record() == old(s.Record())
      ensures Valid()
      ensures src.key in old(Entries()) && old(Entries())[src.key] == old(src.Entry())
      ensures src.key in old(Counts()) && old(Counts())[src.key] == old(src.routeCount)
      ensures Entries() == old(Entries())[src.key := src.Entry()]
      ensures Counts() == old(Counts())[src.key := src.routeCount]
    {
      var s: seq<Source> := old(Contents());
      var rs := old(Records(s));
      assert Contents() == s;
      hide Ordered, SourceMaps.Entries, SourceMaps.Counts;
      OneChanged(s, rs, src, old(src.Record()));
    }

    /** retain_source */
    method RetainSource(src: Source)
      requires Valid() && src in Contents() && src.routeCount < 0xffff
      modifies src`routeCount
      ensures Valid() && Entries() == old(Entries())
      ensures OneMore(old(Counts()), Counts(), src.key)
    {
      hide Ordered, Entries, Counts, OneMore;
      src.routeCount := src.routeCount + 1;
      Touched(src);
      SameValue(old(Entries()), src.key);
      CountedMore(old(Counts()), Counts(), src.key, src.routeCount);
    }

    /** release_source */
    method ReleaseSource(src: Source)
      requires Valid() && src in Contents() && src.routeCount > 0
      modifies src`routeCount
      ensures Valid() && Entries() == old(Entries())
      ensures OneMore(Counts(), old(Counts()), src.key)
    {
      hide Ordered, Entries, Counts, OneMore;
      src.routeCount := src.routeCount - 1;
      Touched(src);
      SameValue(old(Entries()), src.key);
      CountedLess(old(Counts()), Counts(), src.key, src.routeCount);
    }

    /** update_source */
    method UpdateSource(src: Source, now: int, seqno: U16, metric: U16)
      requires Valid() && src in Contents()
      modifies src`seqno, src`metric, src`time
      ensures Valid() && Counts() == old(Counts())
      ensures src.key in old(Entries()) &&
              Entries() == old(Entries())[src.key := SourceHistory.Update(old(Entries())[src.key], now, seqno, metric)]
    {
      hide Ordered, Entries, Counts;
      src.Update(now, seqno, metric);
      Touched(src);
      SameValue(old(Counts()), src.key);
    }

    /** A source with a new key has joined the others. */
    twostate lemma Joined(new src: Source, n: nat)
      requires old(Valid()) && Valid() && n <= |old(Contents())|
      requires Contents() == old(Contents())[..n] + [src] + old(Contents())[n..]
      requires forall s :: s in old(Contents()) ==> s.Record() == old(s.Record())
      requires src.key.Valid() && Vector(src.key) !in Vectors(old(Contents()))
      ensures src.key !in old(Entries())
      ensures Entries() == old(Entries())[src.key := src.Entry()]
      ensures Counts() == old(Counts())[src.key := src.routeCount]
    {
      hide Ordered, Vectors, Vector, SourceMaps.Entries, SourceMaps.Counts, Spliced;
      var s: seq<Source>, t: seq<Source> := old(Contents()), Contents();
      OrderedRecords(s);
      var rs, us := old(Records(s)), Records(t);
      NewKey(s, rs, src.key);
      SplicedRecords(s, rs, us, src, n);
      Inserted(rs, us, n, src.Record());
    }

    /** find_source: finds the source of the key, or creates it. What is found has the requested key unless a
        source with another source prefix length answers for it. */
    method FindSource(key: Key, create: bool, seqno: U16, now: int) returns (src: Source?)
      requires Valid() && key.Valid()
      modifies this, sources
      ensures Valid() && (sources == old(sources) || fresh(sources))
      ensures src == null <==> !create && Vector(key) !in Vectors(old(Contents()))
      ensures src != null ==> (src.key == key <==> !Aliased(old(Contents()), key))
      ensures src == null || src in old(Contents()) ==> Contents() == old(Contents())
      ensures src != null && src !in old(Contents()) ==> fresh(src) && src.key == key
      ensures create && !Aliased(old(Contents()), key) ==>
                if key in old(Entries()) then Entries() == old(Entries()) && Counts() == old(Counts())
                else Entries() == old(Entries())[key := SourceHistory.Entry(seqno, INFINITY, now)]
                     && Counts() == old(Counts())[key := 0]
    {
      hide Ordered, Aliased, Entries, Counts, Vectors, Vector, Belongs;
      var i, n := FindSourceSlot(key);
      if i >= 0 {
        FoundExactly(Contents(), key, i);
        KeyKnown(i);
        src := sources[i];
        assert src == Contents()[i];
      } else {
        MissingExactly(Contents(), key, n);
        if create {
          src := Create(key, n, seqno, now);
        } else {
          src := null;
        }
      }
    }

    lemma KeyKnown(i: nat)
      requires Valid() && i < slots
      ensures Contents()[i].key in Entries()
    {
      OrderedRecords(Contents());
      Listed(Records(Contents()), i);
    }

    /** The part of find_source that creates a source. */
    method Create(key: Key, n: int, seqno: U16, now: int) returns (src: Source)
      requires Valid() && Belongs(Contents(), key, n) && Vector(key) !in Vectors(Contents())
      modifies this, sources
      ensures Valid() && (sources == old(sources) || fresh(sources))
      ensures fresh(src) && src.key == key && Contents() == old(Contents())[..n] + [src] + old(Contents())[n..]
      ensures key !in old(Entries())
      ensures Entries() == old(Entries())[key := SourceHistory.Entry(seqno, INFINITY, now)]
      ensures Counts() == old(Counts())[key := 0]
    {
      src := new Source(key, seqno, now);
      InsertOrdered(Contents(), src, n);
      Insert(src, n);
      hide Ordered, Belongs, Entries, Counts;
      Joined(src, n);
    }

    /** One round of expire_sources: entry `i` is dropped, or moved down to `j`. */
    method Settle(i: nat, j: nat, src: Source, now: int) returns (next: nat)
      requires j <= i < sources.Length && sources[i] == src && forall k :: j <= k < i ==> sources[k] == null
      modifies sources, src`time
      ensures src.time == Min(old(src.time), now)
      ensures var keep := Survives(src.routeCount, old(src.time), now);
              next == (if keep then j + 1 else j) && (keep ==> sources[j] == src)
      ensures forall k :: 0 <= k < j ==> sources[k] == old(sources[k])
      ensures forall k :: next <= k <= i ==> sources[k] == null
      ensures forall k :: i < k < sources.Length ==> sources[k] == old(sources[k])
    {
      next := j;
      if src.time > now {
        // the clock was stepped
        src.time := now;
      }
      if src.routeCount == 0 && src.time < now - SourceHistory.SOURCE_GC_TIME {
        sources[i] := null;
      } else {
        if j < i {
          sources[j] := sources[i];
          sources[i] := null;
        }
        next := j + 1;
      }
    }

    /** The survivors of the first `i` sources have moved down to the first `j` places, and left nothing behind. */
    ghost predicate Packed(before: seq<Source>, survivors: seq<Source>, i: int, j: int)
      reads this, sources
    {
      && slots == |before| <= sources.Length && 0 <= j <= i <= slots
      && j == |survivors| && (forall k :: 0 <= k < j ==> sources[k] == survivors[k])
      && (forall k :: j <= k < i ==> sources[k] == null)
      && (forall k :: i <= k < slots ==> sources[k] == before[k])
    }

    /** The loop of expire_sources: the survivors move down, over the sources that are dropped. */
    method Compact(now: int, ghost keep: seq<bool>, ghost times: seq<int>)
      requires Filled() && Judged(Contents(), keep, times, now) && Forwarded(Contents(), times, 0, now)
      modifies `slots, sources, Contents()`time
      ensures Filled() && Contents() == Chosen(old(Contents()), Kept(keep))
      ensures Forwarded(old(Contents()), times, |times|, now)
      ensures forall k :: slots <= k < old(slots) ==> sources[k] == null
    {
      ghost var before: seq<Source> := Contents();
      NothingKept(before, keep);
      var i, j := 0, 0;
      assert Packed(before, Chosen(before, Kept(keep[..i])), i, j);
      hide Packed, Forwarded, Judged, Chosen, Kept;
      while i < slots
        invariant slots == |before| == |keep| && 0 <= i <= slots
        invariant Judged(before, keep, times, now) && Forwarded(before, times, i, now)
        invariant Packed(before, Chosen(before, Kept(keep[..i])), i, j)
      {
        j := Round(i, j, now, before, keep, times);
        i := i + 1;
      }
      assert keep[..i] == keep;
      Finish(j, before, Chosen(before, Kept(keep)));
    }

    /** The end of expire_sources. */
    method Finish(j: int, ghost before: seq<Source>, ghost survivors: seq<Source>)
      requires Packed(before, survivors, slots, j)
      modifies `slots
      ensures Filled() && Contents() == survivors
      ensures forall k :: slots <= k < old(slots) ==> sources[k] == null
    {
      slots := j;
    }

    /** One round of expire_sources, on the sources that were there before. */
    method Round(i: nat, j: nat, now: int, ghost before: seq<Source>, ghost keep: seq<bool>, ghost times: seq<int>)
      returns (next: nat)
      requires Judged(before, keep, times, now) && i < slots == |before| && Forwarded(before, times, i, now)
      requires Packed(before, Chosen(before, Kept(keep[..i])), i, j)
      modifies sources, before`time
      ensures Packed(before, Chosen(before, Kept(keep[..i + 1])), i + 1, next)
      ensures Forwarded(before, times, i + 1, now)
    {
      hide Chosen, Kept, Survives;
      KeptOneMore(before, keep, i);
      SurvivesClamped(before[i].routeCount, times[i], now);
      var src := sources[i];
      next := Settle(i, j, src, now);
    }

    /** What is left once expire_sources has gone over the table. */
    twostate lemma Collected(now: int)
      requires old(Valid()) && Valid()
      requires forall s :: s in Contents() ==> s in old(Contents())
      requires forall s :: s in old(Contents()) ==>
                 && (s in Contents() <==> Survives(s.routeCount, old(s.time), now))
                 && s.Record() == old(s.Record()).(entry := Clamped(old(s.Entry()), now))
      ensures Entries() == EntriesLeft(old(Entries()), old(Counts()), now)
      ensures Counts() == CountsLeft(old(Entries()), old(Counts()), now)
    {
      hide Ordered, SourceMaps.Entries, SourceMaps.Counts, Survives, Clamped;
      var s: seq<Source>, t: seq<Source> := old(Contents()), Contents();
      var rs, us := old(Records(s)), Records(t);
      OrderedRecords(s);
      OrderedRecords(t);
      forall j | 0 <= j < |us| ensures Survived(rs, us[j], now) {
        assert t[j] in s;
        var i :| 0 <= i < |s| && s[i] == t[j];
        assert Left(rs[i], us[j], now);
      }
      forall i | 0 <= i < |rs| && Survives(rs[i].routeCount, rs[i].entry.time, now) ensures HasKey(us, rs[i].key) {
        var j :| 0 <= j < |t| && t[j] == s[i];
        assert us[j].key == rs[i].key;
      }
      ExpiredMaps(rs, us, now);
    }

    /** expire_sources: compacts the array in place to exactly the surviving sources, in order. No source that
        a route points to is lost. */
    method ExpireSources(now: int)
      requires Valid()
      modifies `slots, sources, Contents()`time
      ensures Valid()
      ensures forall s :: s in old(Contents()) ==> (s in Contents() <==> Survives(s.routeCount, old(s.time), now))
      ensures exists keep: seq<bool> :: |keep| == |old(Contents())| && Contents() == Chosen(old(Contents()), Kept(keep))
      ensures forall s :: s in old(Contents()) ==> s.time == Min(old(s.time), now)
      ensures forall k :: slots <= k < old(slots) ==> sources[k] == null
      ensures Entries() == EntriesLeft(old(Entries()), old(Counts()), now)
      ensures Counts() == CountsLeft(old(Entries()), old(Counts()), now)
    {
      hide Ordered, Entries, Counts, Kept, Chosen, Survives;
      Sweep(now);
      Collected(now);
    }

    /** expire_sources, as far as the list of sources goes. */
    method Sweep(now: int)
      requires Valid()
      modifies `slots, sources, Contents()`time
      ensures Valid()
      ensures forall s :: s in old(Contents()) ==> (s in Contents() <==> Survives(s.routeCount, old(s.time), now))
      ensures forall s :: s in Contents() ==> s in old(Contents())
      ensures exists keep: seq<bool> :: |keep| == |old(Contents())| && Contents() == Chosen(old(Contents()), Kept(keep))
      ensures forall s :: s in old(Contents()) ==> s.time == Min(old(s.time), now)
      ensures forall k :: slots <= k < old(slots) ==> sources[k] == null
    {
      hide Ordered, Chosen, Kept, Survives;
      ghost var before: seq<Source> := Contents();
      ghost var times := seq(slots, k requires 0 <= k < |before| reads before => before[k].time);
      ghost var keep := seq(slots, k requires 0 <= k < |before| reads before =>
        Survives(before[k].routeCount, before[k].time, now));
      ChosenOrdered(before, keep);
      Compact(now, keep, times);
    }
  }
}
