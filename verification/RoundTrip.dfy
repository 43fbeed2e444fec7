/** The round trip of the update codec: a parser that starts on a packet in a state that agrees with what the
    sender remembers recovers every update of the packet. */
module RoundTrip {
  import opened Common
  import opened Prefix
  import opened Wire

  /** A TLV of a packet: an update, or any TLV that does not take part in the compression. */
  datatype Tlv = Upd(u: Update) | Other(kind: U8, body: Bytes) {
    predicate Valid() {
      if Upd? then u.Valid()
      else kind !in {PAD1, ROUTER_ID, NH, UPDATE, UPDATE_SRC_SPECIFIC} && |body| < 0x100
    }
  }

  type Item = item: Tlv | item.Valid() witness Other(1, [])

  function EncodeItem(c: Compression, item: Item): Bytes
  {
    if item.Upd? then Encode(c, item.u) else [item.kind, |item.body|] + item.body
  }

  function AfterItem(c: Compression, item: Item): Compression
  {
    if item.Upd? then After(c, item.u) else c
  }

  /** The bytes of a packet that holds `items`. */
  function EncodeAll(c: Compression, items: seq<Item>): Bytes
    decreases |items|
  {
    if items == [] then [] else EncodeItem(c, items[0]) + EncodeAll(AfterItem(c, items[0]), items[1..])
  }

  function AfterAll(c: Compression, items: seq<Item>): Compression
    decreases |items|
  {
    if items == [] then c else AfterAll(AfterItem(c, items[0]), items[1..])
  }

  /** What a receiver is meant to learn from an update. */
  function Meant(rx: Receiver, u: Update): seq<Event>
    requires u.Valid()
  {
    if u.V4() && !rx.ipv4 then []
    else [Learned(Record(u.id, u.prefix, u.plen, u.srcPrefix, u.srcPlen, u.seqno, u.metric, u.interval,
                         if u.V4() then Some(V4PREFIX + u.ipv4) else None,
                         if u.channels.Some? then u.channels else Some(DefaultChannels(rx, u.metric))))]
  }

  function MeantBy(rx: Receiver, item: Item): seq<Event> {
    if item.Upd? then Meant(rx, item.u) else []
  }

  function MeantAll(rx: Receiver, items: seq<Item>): seq<Event>
  {
    if items == [] then []
    else MeantBy(rx, items[0]) + MeantAll(rx, items[1..])
  }

  /** The parser agrees with everything that the sender relies on. */
  predicate Agree(c: Compression, ps: Parser) {
    && (c.id.Some? ==> ps.routerId == c.id)
    && NhAgrees(c, ps)
    && PrefixAgrees(c, ps)
  }

  predicate NhAgrees(c: Compression, ps: Parser) {
    ps.v6Nh == None && (c.nh.Some? ==> |c.nh.value| == 4 && ps.v4Nh == Some(V4PREFIX + c.nh.value))
  }

  predicate PrefixAgrees(c: Compression, ps: Parser) {
    c.prefix.Some? ==> ps.v6Prefix == c.prefix && !V4Mapped(c.prefix.value)
  }

  // ---------------------------------------------------------------- prefixes

  /** Normalizing looks only at the bytes that a TLV carries. */
  lemma NormalizeSome(x: Address, y: Address, plen: U8)
    requires plen <= 128 && x[..Ceil8(plen)] == y[..Ceil8(plen)]
    ensures Normalize(x, plen) == Normalize(y, plen)
  {
    hide KeepTop;
    var n, k := plen / 8, Ceil8(plen);
    forall i | 0 <= i < k ensures x[i] == y[i] {
      assert x[..k][i] == y[..k][i];
    }
    assert x[..n] == y[..n];
    assert plen >= 128 ==> x == y;
  }

  /** A normalized prefix that is not IPv4 never looks mapped, so its bytes may be omitted. */
  lemma NotMapped(u: Update)
    requires u.Valid() && !u.V4()
    ensures !V4Mapped(u.prefix)
  {
    if u.plen < 96 {
      assert Normalize(u.prefix, u.plen)[11] != 0xFF;
      assert u.prefix[..12][11] != V4PREFIX[11];
    }
  }

  /** network_prefix restores an IPv6 prefix whose first bytes are taken from an earlier one. */
  lemma PrefixRestored6(prefix: Address, plen: U8, omitted: U8, p: Bytes, dp: Option<Address>, len: int)
    requires plen <= 128 && Normalize(prefix, plen) == prefix && omitted <= Ceil8(plen)
    requires omitted > 0 ==> dp.Some? && !V4Mapped(dp.value) && dp.value[..omitted] == prefix[..omitted]
    requires Ceil8(plen) - omitted <= len <= |p| && p[..Ceil8(plen) - omitted] == prefix[omitted..Ceil8(plen)]
    ensures NetworkPrefix(2, plen, omitted, p, dp, len) == Some((prefix, Ceil8(plen) - omitted))
  {
    hide Normalize;
    var pb := Ceil8(plen);
    var base: Bytes := (if omitted > 0 then dp.value[..omitted] else []) + p[..pb - omitted];
    assert base == prefix[..pb];
    NormalizeSome(base + ZEROES[pb..], prefix, plen);
  }

  lemma PrefixRestored4(prefix: Address, plen: U8, ae: U8, realPlen: U8, omitted: U8, p: Bytes, dp: Option<Address>,
                        len: int)
    requires ae == 1 && realPlen == plen - 96 && omitted == 0
    requires 96 <= plen <= 128 && Normalize(prefix, plen) == prefix && V4Mapped(prefix)
    requires Ceil8(plen - 96) <= len <= |p| && p[..Ceil8(plen - 96)] == prefix[12..][..Ceil8(plen - 96)]
    ensures NetworkPrefix(ae, realPlen, omitted, p, dp, len) == Some((prefix, Ceil8(plen - 96)))
  {
    hide Normalize;
    var pb := Ceil8(realPlen);
    assert Ceil8(plen) == 12 + pb;
    var base: Bytes := V4PREFIX + p[..pb - omitted];
    assert base == prefix[..12 + pb];
    var full := base + ZEROES[12 + pb..];
    assert full[..12 + pb] == base;
    NormalizeSome(full, prefix, plen);
  }

  lemma ChannelsRestored(u: Update, a: Bytes, alen: int, default: Bytes)
    requires u.Valid() && alen == |ChannelPart(u)| && |a| >= alen + 2 && a[..alen] == ChannelPart(u)
    ensures SubTlvs(a, alen, default) == Some(if u.channels.Some? then u.channels.value else default)
  {
    if u.channels.Some? {
      var ch := u.channels.value;
      assert a[0] == a[..alen][0] == SUBTLV_DIVERSITY && a[1] == a[..alen][1] == |ch|;
      assert a[2..2 + |ch|] == a[..alen][2..2 + |ch|] == ch;
    }
  }

  // ---------------------------------------------------------------- one update

  /** A part of a longer sequence, found at its place. */
  lemma Middle(m: Bytes, a: Bytes, b: Bytes, c: Bytes)
    requires |m| >= |a| + |b| + |c| && m[..|a| + |b| + |c|] == a + b + c
    ensures m[|a|..][..|b|] == b
  {
    var all := a + b + c;
    forall k | 0 <= k < |b| ensures m[|a|..][..|b|][k] == b[k] {
      assert all[|a| + k] == b[k];
      assert m[..|a| + |b| + |c|][|a| + k] == m[|a| + k];
    }
  }

  lemma Slices(m: Bytes, h: Bytes, p: Bytes, s: Bytes, t: Bytes)
    requires |m| >= |h| + |p| + |s| + |t| && m[..|h| + |p| + |s| + |t|] == h + p + s + t
    ensures m[..|h|] == h
    ensures m[|h|..][..|p|] == p
    ensures m[|h| + |p|..][..|s|] == s
    ensures m[|h| + |p| + |s|..][..|t|] == t
  {
    var i, j, k := |h|, |h| + |p|, |h| + |p| + |s|;
    Middle(m, [], h, p + s + t);
    Middle(m, h, p, s + t);
    Middle(m, h + p, s, t);
    Middle(m, h + p + s, t, []);
  }

  lemma Shorts(m: Bytes, h: Bytes, a: U16, b: U16, d: U16)
    requires |m| >= 12 && m[..12] == h && |h| == 12 && h[6..] == Short(a) + Short(b) + Short(d)
    ensures ToShort(m[6..]) == a && ToShort(m[8..]) == b && ToShort(m[10..]) == d
    ensures forall i | 0 <= i < 6 :: m[i] == h[i]
  {
    var t := Short(a) + Short(b) + Short(d);
    forall i | 0 <= i < 12 ensures m[i] == h[i] { assert m[..12][i] == h[i]; }
    forall i | 0 <= i < 6 ensures h[6 + i] == t[i] { assert h[6..][i] == t[i]; }
    assert m[6..][0] == t[0] && m[6..][1] == t[1];
    assert m[8..][0] == t[2] && m[8..][1] == t[3];
    assert m[10..][0] == t[4] && m[10..][1] == t[5];
  }

  /** An update TLV, wherever it stands in memory. */
  predicate At(c: Compression, u: Update, m: Bytes)
    requires u.Valid()
  {
    |m| >= |UpdatePart(c, u)| + 2 && m[..|UpdatePart(c, u)|] == UpdatePart(c, u)
  }

  lemma Fields(c: Compression, u: Update, m: Bytes)
    requires u.Valid() && At(c, u, m)
    ensures |UpdatePart(c, u)| == Length(c, u) + 2
    ensures m[0] == if u.Specific() then UPDATE_SRC_SPECIFIC else UPDATE
    ensures m[1] == Length(c, u)
    ensures m[2] == if u.V4() then 1 else 2
    ensures m[3] == if u.Specific() then u.RealSrcPlen() else Flags(c, u)
    ensures m[4] == u.RealPlen() && m[5] == Omit(c, u)
    ensures ToShort(m[6..]) == u.interval && ToShort(m[8..]) == u.seqno && ToShort(m[10..]) == u.metric
  {
    hide PrefixPart, SourcePart, ChannelPart, Flags, Omit, Normalize;
    var h := UpdateHeader(c, u);
    Slices(m, h, PrefixPart(c, u), SourcePart(u), ChannelPart(u));
    assert h[6..] == Short(u.interval) + Short(u.seqno) + Short(u.metric);
    Shorts(m, h, u.interval, u.seqno, u.metric);
  }

  lemma Payload(c: Compression, u: Update, m: Bytes)
    requires u.Valid() && At(c, u, m)
    ensures m[12..][..|PrefixPart(c, u)|] == PrefixPart(c, u)
    ensures m[12 + |PrefixPart(c, u)|..][..|SourcePart(u)|] == SourcePart(u)
    ensures m[12 + |PrefixPart(c, u)| + |SourcePart(u)|..][..|ChannelPart(u)|] == ChannelPart(u)
  {
    hide UpdateHeader, PrefixPart, SourcePart, ChannelPart, Update.Valid, Length;
    Slices(m, UpdateHeader(c, u), PrefixPart(c, u), SourcePart(u), ChannelPart(u));
  }

  /** The fields that the decoding of the prefix depends on. */
  lemma PrefixFields(c: Compression, u: Update, m: Bytes)
    requires u.Valid() && At(c, u, m)
    ensures |m| >= Length(c, u) + 4 && 10 + |PrefixPart(c, u)| <= Length(c, u)
    ensures m[2] == (if u.V4() then 1 else 2) && m[4] == u.RealPlen() && m[5] == Omit(c, u)
    ensures m[12..][..|PrefixPart(c, u)|] == PrefixPart(c, u)
  {
    Fields(c, u, m);
    Payload(c, u, m);
  }

  lemma PrefixPart4(c: Compression, u: Update)
    requires u.Valid() && u.V4()
    ensures Omit(c, u) == 0 && u.RealPlen() == u.plen - 96
    ensures PrefixPart(c, u) == u.prefix[12..][..Ceil8(u.plen - 96)]
  {
  }

  lemma PrefixFound4(c: Compression, ps: Parser, u: Update, m: Bytes)
    requires u.Valid() && At(c, u, m) && u.V4()
    ensures UpdatePrefix(ps, m, Length(c, u)) == Some((u.prefix, |PrefixPart(c, u)|))
  {
    hide NetworkPrefix, Normalize, UpdatePart, PrefixPart, ChannelPart, SourcePart;
    PrefixFields(c, u, m);
    PrefixPart4(c, u);
    var p, len := m[12..], Length(c, u) - 10;
    assert p[..Ceil8(u.plen - 96)] == u.prefix[12..][..Ceil8(u.plen - 96)];
    PrefixRestored4(u.prefix, u.plen, m[2], m[4], m[5], p, ps.v4Prefix, len);
  }

  lemma PrefixFound6(c: Compression, ps: Parser, u: Update, m: Bytes)
    requires u.Valid() && PrefixAgrees(c, ps) && At(c, u, m) && !u.V4()
    ensures UpdatePrefix(ps, m, Length(c, u)) == Some((u.prefix, |PrefixPart(c, u)|))
  {
    hide NetworkPrefix, Normalize, UpdatePart, ChannelPart, SourcePart;
    PrefixFields(c, u, m);
    assert PrefixPart(c, u) == u.prefix[Omit(c, u)..Ceil8(u.plen)];
    PrefixRestored6(u.prefix, u.plen, Omit(c, u), m[12..], ps.v6Prefix, Length(c, u) - 10);
  }

  lemma SourceFields(c: Compression, u: Update, m: Bytes)
    requires u.Valid() && At(c, u, m) && u.Specific()
    ensures |m| >= Length(c, u) + 4 && 10 + |PrefixPart(c, u)| + |SourcePart(u)| <= Length(c, u)
    ensures m[2] == (if u.V4() then 1 else 2) && m[3] == u.RealSrcPlen()
    ensures m[12 + |PrefixPart(c, u)|..][..|SourcePart(u)|] == SourcePart(u)
    ensures |SourcePart(u)| == Ceil8(u.RealSrcPlen())
  {
    Fields(c, u, m);
    Payload(c, u, m);
  }

  lemma SourceFound4(c: Compression, u: Update, m: Bytes)
    requires u.Valid() && At(c, u, m) && u.Specific() && u.V4()
    ensures |m| >= Length(c, u) + 4 && 10 <= Length(c, u)
    ensures SourcePrefix(m, Length(c, u), 10 + |PrefixPart(c, u)|) == Some((u.srcPrefix, |SourcePart(u)|))
  {
    hide NetworkPrefix, Normalize, UpdatePart, PrefixPart, ChannelPart;
    SourceFields(c, u, m);
    var parsed := 10 + |PrefixPart(c, u)|;
    var p, len := m[parsed + 2..], Length(c, u) - parsed;
    assert p[..|SourcePart(u)|] == u.srcPrefix[12..][..|SourcePart(u)|];
    PrefixRestored4(u.srcPrefix, u.srcPlen, m[2], m[3], 0, p, None, len);
  }

  lemma SourceFound6(c: Compression, u: Update, m: Bytes)
    requires u.Valid() && At(c, u, m) && u.Specific() && !u.V4()
    ensures |m| >= Length(c, u) + 4 && 10 <= Length(c, u)
    ensures SourcePrefix(m, Length(c, u), 10 + |PrefixPart(c, u)|) == Some((u.srcPrefix, |SourcePart(u)|))
  {
    hide NetworkPrefix, Normalize, UpdatePart, PrefixPart, ChannelPart;
    SourceFields(c, u, m);
    var parsed := 10 + |PrefixPart(c, u)|;
    var p, len := m[parsed + 2..], Length(c, u) - parsed;
    assert p[..|SourcePart(u)|] == u.srcPrefix[0..Ceil8(u.srcPlen)];
    PrefixRestored6(u.srcPrefix, u.srcPlen, 0, p, None, len);
  }

  lemma SourceFound(c: Compression, u: Update, m: Bytes)
    requires u.Valid() && At(c, u, m) && u.Specific()
    ensures |m| >= Length(c, u) + 4 && 10 <= Length(c, u)
    ensures SourcePrefix(m, Length(c, u), 10 + |PrefixPart(c, u)|) == Some((u.srcPrefix, |SourcePart(u)|))
  {
    if u.V4() { SourceFound4(c, u, m); } else { SourceFound6(c, u, m); }
  }

  lemma ChannelsFound(rx: Receiver, c: Compression, u: Update, m: Bytes)
    requires u.Valid() && At(c, u, m)
    ensures UpdateChannels(rx, m, Length(c, u), 10 + |PrefixPart(c, u)| + |SourcePart(u)|)
            == Some(if u.channels.Some? then u.channels.value else DefaultChannels(rx, u.metric))
  {
    hide SubTlvs, UpdatePart, Normalize;
    Fields(c, u, m);
    Payload(c, u, m);
    var parsed, rest := 10 + |PrefixPart(c, u)| + |SourcePart(u)|, |ChannelPart(u)|;
    assert Length(c, u) - parsed == rest;
    var a := m[parsed + 2..];
    assert a[..rest] == ChannelPart(u) && |a| >= rest + 2;
    ChannelsRestored(u, a, rest, DefaultChannels(rx, u.metric));
  }

  lemma FlagsRestored(c: Compression, u: Update)
    requires u.Valid() && !u.Specific()
    ensures HasFlag(Flags(c, u), 0x80) <==> PrefixFlag(c, u)
    ensures HasFlag(Flags(c, u), 0x40) <==> IdFlag(c, u)
  {
    hide PrefixFlag, IdFlag, Normalize;
  }

  lemma EmptySource(u: Update)
    requires u.Valid() && !u.Specific()
    ensures u.srcPrefix == ZEROES
  {
  }

  /** The parser knows everything that the update TLV itself leaves out. */
  predicate Ready(c: Compression, ps: Parser, u: Update)
    requires u.Valid()
  {
    && PrefixAgrees(c, ps)
    && NhAgrees(c.(nh := if u.V4() then Some(u.ipv4) else c.nh), ps)
    && (ps.routerId == Some(u.id) || IdFlag(c, u))
  }

  lemma FinishMeant(rx: Receiver, c: Compression, ps: Parser, u: Update, channels: Bytes)
    requires u.Valid() && Ready(c, ps, u) && !u.Specific()
    requires channels == if u.channels.Some? then u.channels.value else DefaultChannels(rx, u.metric)
    ensures var f := FinishUpdate(rx, ps, if u.V4() then 1 else 2, Flags(c, u), u.plen, u.prefix, u.seqno, u.metric,
                                  u.interval, Some(channels));
            f.1 == Meant(rx, u) && Agree(After(c, u), f.0)
  {
    FlagsRestored(c, u);
    EmptySource(u);
    if !u.V4() { NotMapped(u); }
  }

  lemma FinishSpecificMeant(rx: Receiver, c: Compression, ps: Parser, u: Update, channels: Bytes)
    requires u.Valid() && Ready(c, ps, u) && u.Specific()
    requires channels == if u.channels.Some? then u.channels.value else DefaultChannels(rx, u.metric)
    ensures FinishSpecific(rx, ps, if u.V4() then 1 else 2, u.plen, u.prefix, u.srcPlen, u.srcPrefix, u.seqno, u.metric,
                           u.interval, Some(channels)) == Meant(rx, u)
    ensures Agree(After(c, u), ps)
  {
  }

  lemma PlensRestored(u: Update)
    requires u.Valid()
    ensures ShiftedPlen(if u.V4() then 1 else 2, u.RealPlen()) == u.plen
    ensures u.Specific() ==> ShiftedPlen(if u.V4() then 1 else 2, u.RealSrcPlen()) == u.srcPlen
  {
  }

  lemma PrefixFound(c: Compression, ps: Parser, u: Update, m: Bytes)
    requires u.Valid() && PrefixAgrees(c, ps) && At(c, u, m)
    ensures |m| >= Length(c, u) + 4 && 10 <= Length(c, u)
    ensures UpdatePrefix(ps, m, Length(c, u)) == Some((u.prefix, |PrefixPart(c, u)|))
  {
    PrefixFields(c, u, m);
    if u.V4() { PrefixFound4(c, ps, u, m); } else { PrefixFound6(c, ps, u, m); }
  }

  lemma PlainParses(rx: Receiver, c: Compression, ps: Parser, u: Update, m: Bytes)
    requires u.Valid() && Ready(c, ps, u) && At(c, u, m) && !u.Specific()
    ensures |m| >= Length(c, u) + 4
    ensures ParseUpdate(rx, ps, m, Length(c, u)).1 == Meant(rx, u)
    ensures Agree(After(c, u), ParseUpdate(rx, ps, m, Length(c, u)).0)
  {
    hide UpdatePrefix, UpdateChannels, FinishUpdate, Meant, Normalize, UpdatePart;
    PrefixFound(c, ps, u, m);
    Fields(c, u, m);
    PlensRestored(u);
    ChannelsFound(rx, c, u, m);
    FinishMeant(rx, c, ps, u, if u.channels.Some? then u.channels.value else DefaultChannels(rx, u.metric));
    assert |SourcePart(u)| == 0;
  }

  lemma SpecificDecoded(rx: Receiver, ps: Parser, m: Bytes, len: U8, ae: U8, plen: U8, p: Address, rc: nat, srcPlen: U8,
                        q: Address, rc2: nat, seqno: U16, metric: U16, interval: U16, channels: Option<Bytes>)
    requires 10 <= len && |m| >= len + 4
    requires UpdatePrefix(ps, m, len) == Some((p, rc)) && SourcePrefix(m, len, 10 + rc) == Some((q, rc2))
    requires m[2] == ae && ShiftedPlen(ae, m[4]) == plen && ShiftedPlen(ae, m[3]) == srcPlen
    requires ToShort(m[6..]) == interval && ToShort(m[8..]) == seqno && ToShort(m[10..]) == metric
    requires UpdateChannels(rx, m, len, 10 + rc + rc2) == channels
    ensures ParseSpecific(rx, ps, m, len)
            == FinishSpecific(rx, ps, ae, plen, p, srcPlen, q, seqno, metric, interval, channels)
  {
    hide UpdatePrefix, SourcePrefix, UpdateChannels, FinishSpecific;
  }

  lemma SpecificParses(rx: Receiver, c: Compression, ps: Parser, u: Update, m: Bytes)
    requires u.Valid() && Ready(c, ps, u) && At(c, u, m) && u.Specific()
    ensures |m| >= Length(c, u) + 4
    ensures ParseSpecific(rx, ps, m, Length(c, u)) == Meant(rx, u)
    ensures Agree(After(c, u), ps)
  {
    hide UpdatePrefix, UpdateChannels, FinishSpecific, Meant, Normalize, UpdatePart, SourcePrefix, ParseSpecific;
    var channels := if u.channels.Some? then u.channels.value else DefaultChannels(rx, u.metric);
    FinishSpecificMeant(rx, c, ps, u, channels);
    Fields(c, u, m);
    PrefixFound(c, ps, u, m);
    SourceFound(c, u, m);
    PlensRestored(u);
    ChannelsFound(rx, c, u, m);
    SpecificDecoded(rx, ps, m, Length(c, u), if u.V4() then 1 else 2, u.plen, u.prefix, |PrefixPart(c, u)|, u.srcPlen,
                    u.srcPrefix, |SourcePart(u)|, u.seqno, u.metric, u.interval, Some(channels));
  }

  /** The update TLV itself is understood. */
  lemma UpdateParses(rx: Receiver, c: Compression, ps: Parser, u: Update, m: Bytes)
    requires u.Valid() && Ready(c, ps, u) && At(c, u, m)
    ensures |m| >= Length(c, u) + 4
    ensures ParseMessage(rx, ps, m, Length(c, u)).1 == Meant(rx, u)
    ensures Agree(After(c, u), ParseMessage(rx, ps, m, Length(c, u)).0)
  {
    hide ParseUpdate, ParseSpecific, Meant, Normalize, UpdatePart;
    Fields(c, u, m);
    if u.Specific() { SpecificParses(rx, c, ps, u, m); } else { PlainParses(rx, c, ps, u, m); }
  }

  // ---------------------------------------------------------------- packets

  /** The parser takes one whole TLV, and goes on with the rest. */
  lemma OneMessage(rx: Receiver, ps: Parser, t: Bytes, rest: Bytes, n: nat)
    requires |t| >= 2 && t[0] != PAD1 && t[1] == |t| - 2 && |rest| >= n + 4
    ensures ParseBody(rx, ps, t + rest, |t| + n) ==
            ParseMessage(rx, ps, t + rest, t[1]).1 + ParseBody(rx, ParseMessage(rx, ps, t + rest, t[1]).0, rest, n)
  {
    hide ParseMessage;
    var m := t + rest;
    assert m[0] == t[0] && m[1] == t[1] && m[t[1] + 2..] == rest;
  }

  lemma NhParses(rx: Receiver, c: Compression, ps: Parser, u: Update, rest: Bytes, n: nat) returns (ps1: Parser)
    requires u.Valid() && Agree(c, ps) && |rest| >= n + 4
    ensures ParseBody(rx, ps, NhPart(c, u) + rest, |NhPart(c, u)| + n) == ParseBody(rx, ps1, rest, n)
    ensures Agree(c.(nh := if u.V4() then Some(u.ipv4) else c.nh), ps1)
  {
    hide ParseBody;
    var t := NhPart(c, u);
    if t == [] {
      ps1 := ps;
      assert t + rest == rest;
    } else {
      ps1 := ps.(v4Nh := Some(V4PREFIX + u.ipv4));
      OneMessage(rx, ps, t, rest, n);
      NhRestored(ps, u.ipv4, rest);
    }
  }

  lemma NhRestored(ps: Parser, ipv4: Bytes, rest: Bytes)
    requires |ipv4| == 4 && |rest| >= 4
    ensures ParseNh(ps, [NH, 6, 1, 0] + ipv4 + rest, 6) == ps.(v4Nh := Some(V4PREFIX + ipv4))
  {
    var m := [NH, 6, 1, 0] + ipv4 + rest;
    assert m[4..][..4] == ipv4;
    var base: Bytes := V4PREFIX + m[4..][..4];
    assert base + ZEROES[16..] == V4PREFIX + ipv4;
  }

  lemma IdParses(rx: Receiver, c: Compression, ps: Parser, u: Update, rest: Bytes, n: nat) returns (ps1: Parser)
    requires u.Valid() && Agree(c.(nh := if u.V4() then Some(u.ipv4) else c.nh), ps) && |rest| >= n + 4
    ensures ParseBody(rx, ps, IdPart(c, u) + rest, |IdPart(c, u)| + n) == ParseBody(rx, ps1, rest, n)
    ensures Ready(c, ps1, u)
  {
    hide ParseBody;
    var t := IdPart(c, u);
    if t == [] {
      ps1 := ps;
      assert t + rest == rest;
    } else {
      ps1 := ps.(routerId := Some(u.id));
      OneMessage(rx, ps, t, rest, n);
      assert (t + rest)[4..12] == u.id;
    }
  }

  lemma EncodeParts(c: Compression, u: Update, rest: Bytes)
    requires u.Valid()
    ensures Encode(c, u) + rest == NhPart(c, u) + (IdPart(c, u) + (UpdatePart(c, u) + rest))
    ensures |Encode(c, u)| == |NhPart(c, u)| + |IdPart(c, u)| + |UpdatePart(c, u)|
  {
    hide NhPart, IdPart, UpdatePart, Update.Valid;
    var a, b, t := NhPart(c, u), IdPart(c, u), UpdatePart(c, u);
    Associate(a, b, t);
    Associate(a, b + t, rest);
    Associate(b, t, rest);
  }

  lemma UpdateTlv(c: Compression, u: Update, rest: Bytes)
    requires u.Valid() && |rest| >= 4
    ensures |UpdatePart(c, u)| >= 2 && UpdatePart(c, u)[0] != PAD1 && UpdatePart(c, u)[1] == Length(c, u)
    ensures |UpdatePart(c, u)| == Length(c, u) + 2
    ensures At(c, u, UpdatePart(c, u) + rest)
  {
    hide UpdatePart, Length, Omit, Flags;
    var t := UpdatePart(c, u);
    var m := t + rest;
    assert m[..|t|] == t;
    Fields(c, u, m);
    assert m[0] == t[0] && m[1] == t[1];
  }

  /** One update, with the TLVs that precede it. */
  lemma UpdateUnderstood(rx: Receiver, c: Compression, ps: Parser, u: Update, rest: Bytes, n: nat) returns (ps1: Parser)
    requires u.Valid() && Agree(c, ps) && |rest| >= n + 4
    ensures ParseBody(rx, ps, Encode(c, u) + rest, |Encode(c, u)| + n) == Meant(rx, u) + ParseBody(rx, ps1, rest, n)
    ensures Agree(After(c, u), ps1)
  {
    hide *;
    var a, b, t := NhPart(c, u), IdPart(c, u), UpdatePart(c, u);
    EncodeParts(c, u, rest);
    UpdateTlv(c, u, rest);
    var ps2 := NhParses(rx, c, ps, u, b + (t + rest), |b| + (|t| + n));
    var ps3 := IdParses(rx, c, ps2, u, t + rest, |t| + n);
    UpdateParses(rx, c, ps3, u, t + rest);
    ps1 := ParseMessage(rx, ps3, t + rest, Length(c, u)).0;
    OneMessage(rx, ps3, t, rest, n);
  }

  lemma OtherSkipped(rx: Receiver, ps: Parser, item: Item, rest: Bytes, n: nat)
    requires item.Other? && |rest| >= n + 4
    ensures ParseBody(rx, ps, EncodeItem(FRESH, item) + rest, |EncodeItem(FRESH, item)| + n)
            == ParseBody(rx, ps, rest, n)
  {
    hide ParseBody;
    OneMessage(rx, ps, [item.kind, |item.body|] + item.body, rest, n);
  }

  /** Any TLV of a packet. */
  lemma ItemUnderstood(rx: Receiver, c: Compression, ps: Parser, item: Item, rest: Bytes, n: nat) returns (ps1: Parser)
    requires Agree(c, ps) && |rest| >= n + 4
    ensures ParseBody(rx, ps, EncodeItem(c, item) + rest, |EncodeItem(c, item)| + n)
            == MeantBy(rx, item) + ParseBody(rx, ps1, rest, n)
    ensures Agree(AfterItem(c, item), ps1)
  {
    hide ParseBody, Encode, After, Meant, Agree, Update.Valid;
    if item.Upd? {
      ps1 := UpdateUnderstood(rx, c, ps, item.u, rest, n);
    } else {
      OtherSkipped(rx, ps, item, rest, n);
      ps1 := ps;
    }
  }

  lemma EncodeNil(c: Compression)
    ensures EncodeAll(c, []) == [] && AfterAll(c, []) == c
  {
  }

  lemma Nothing(rx: Receiver, c: Compression, ps: Parser, past: Bytes)
    requires |past| >= 4
    ensures ParseBody(rx, ps, EncodeAll(c, []) + past, |EncodeAll(c, [])|) == MeantAll(rx, [])
  {
  }

  lemma Associate(a: Bytes, b: Bytes, d: Bytes)
    ensures (a + b) + d == a + (b + d)
  {
  }

  lemma EncodeCons(c: Compression, item: Item, items: seq<Item>)
    ensures EncodeAll(c, [item] + items) == EncodeItem(c, item) + EncodeAll(AfterItem(c, item), items)
    ensures AfterAll(c, [item] + items) == AfterAll(AfterItem(c, item), items)
  {
  }

  lemma MeantCons(rx: Receiver, item: Item, items: seq<Item>)
    ensures MeantAll(rx, [item] + items) == MeantBy(rx, item) + MeantAll(rx, items)
  {
  }

  /** Whatever follows the packet in memory, a parser that starts in agreement with the sender learns exactly
      what the updates of the packet mean. */
  lemma {:induction false} PacketUnderstood(rx: Receiver, c: Compression, ps: Parser, items: seq<Item>, past: Bytes)
    requires Agree(c, ps) && |past| >= 4
    ensures ParseBody(rx, ps, EncodeAll(c, items) + past, |EncodeAll(c, items)|) == MeantAll(rx, items)
    decreases |items|
  {
    hide *;
    if items == [] {
      Nothing(rx, c, ps, past);
    } else {
      var item, rest := items[0], items[1..];
      assert items == [item] + rest;
      EncodeCons(c, item, rest);
      MeantCons(rx, item, rest);
      var head, tail := EncodeItem(c, item), EncodeAll(AfterItem(c, item), rest);
      Associate(head, tail, past);
      var ps1 := ItemUnderstood(rx, c, ps, item, tail + past, |tail|);
      PacketUnderstood(rx, AfterItem(c, item), ps1, rest, past);
    }
  }

  /** A packet is built from a fresh compression state, and parsed from a fresh parser. */
  lemma PacketRoundTrip(rx: Receiver, items: seq<Item>, past: Bytes)
    requires |past| >= 4
    ensures ParseBody(rx, START, EncodeAll(FRESH, items) + past, |EncodeAll(FRESH, items)|) == MeantAll(rx, items)
  {
    PacketUnderstood(rx, FRESH, START, items, past);
  }

  lemma {:induction false} AppendItem(c: Compression, items: seq<Item>, item: Item)
    ensures EncodeAll(c, items + [item]) == EncodeAll(c, items) + EncodeItem(AfterAll(c, items), item)
    ensures AfterAll(c, items + [item]) == AfterItem(AfterAll(c, items), item)
    decreases |items|
  {
    hide *;
    if items == [] {
      EncodeCons(c, item, []);
      EncodeNil(c);
      EncodeNil(AfterItem(c, item));
      assert items + [item] == [item] + [];
      assert EncodeItem(c, item) + [] == [] + EncodeItem(c, item);
    } else {
      var c1, rest := AfterItem(c, items[0]), items[1..];
      assert items == [items[0]] + rest;
      assert items + [item] == [items[0]] + (rest + [item]);
      EncodeCons(c, items[0], rest);
      EncodeCons(c, items[0], rest + [item]);
      AppendItem(c1, rest, item);
      Associate(EncodeItem(c, items[0]), EncodeAll(c1, rest), EncodeItem(AfterAll(c1, rest), item));
    }
  }
}
