/** The update TLVs of section 4.4.9 of RFC 6126 and their source-specific extension: how really_send_update
    compresses them against earlier TLVs of the packet, and how parse_packet restores them (message.c). */
module Wire {
  import opened Common
  import opened Prefix

  type Bytes = seq<U8>

  const PAD1: U8 := 0
  const ROUTER_ID: U8 := 6
  const NH: U8 := 7
  const UPDATE: U8 := 8
  const UPDATE_SRC_SPECIFIC: U8 := 13
  const SUBTLV_PAD1: U8 := 0
  const SUBTLV_DIVERSITY: U8 := 2
  const MAX_CHANNEL_HOPS := 20
  const CHANNEL_INTERFERING: U8 := 255

  /** An update as flushupdates hands it over. `channels` is None unless diversity_kind is
      DIVERSITY_CHANNEL; `ipv4` is the address of the interface, and the next hop of IPv4 updates. */
  datatype Update = Update(id: Bytes, prefix: Address, plen: U8, srcPrefix: Address, srcPlen: U8,
                           seqno: U16, metric: U16, channels: Option<Bytes>, ipv4: Bytes, interval: U16)
  {
    predicate V4() { plen >= 96 && V4Mapped(prefix) }

    /** Prefixes are normalized, and of one family. */
    predicate Valid() {
      && |id| == 8 && |ipv4| == 4
      && plen <= 128 && Normalize(prefix, plen) == prefix
      && srcPlen <= 128 && Normalize(srcPrefix, srcPlen) == srcPrefix
      && (V4() && srcPlen != 0 ==> srcPlen >= 96 && V4Mapped(srcPrefix))
      && (channels.Some? ==> |channels.value| <= MAX_CHANNEL_HOPS)
    }

    predicate Specific() { srcPlen != 0 }

    function RealPlen(): U8 { if V4() then plen - 96 else plen }

    function RealPrefix(): Bytes { if V4() then prefix[12..] else prefix }

    function RealSrcPlen(): U8
      requires Valid()
    {
      if V4() && Specific() then srcPlen - 96 else srcPlen
    }

    function RealSrcPrefix(): Bytes { if V4() then srcPrefix[12..] else srcPrefix }
  }

  /** What the sender remembers of the packet under construction. */
  datatype Compression = Compression(id: Option<Bytes>, nh: Option<Bytes>, prefix: Option<Address>)

  const FRESH := Compression(None, None, None)

  // ---------------------------------------------------------------- encoding

  function Ceil8(n: nat): nat { (n + 7) / 8 }

  function Short(v: U16): Bytes { [v / 256, v % 256] }

  /** The number of leading bytes that two addresses share, counted up to `n`. */
  function CommonBytes(a: Address, b: Address, n: nat): (k: nat)
    requires n <= 16
    ensures k <= n && a[..k] == b[..k] && (k < n ==> a[k] != b[k])
  {
    if n == 0 then 0
    else
      var k := CommonBytes(a, b, n - 1);
      if k == n - 1 && a[n - 1] == b[n - 1] then n else k
  }

  function Omit(c: Compression, u: Update): (n: nat)
    requires u.Valid()
    ensures n <= 16
  {
    if u.V4() || c.prefix.None? then 0 else CommonBytes(c.prefix.value, u.prefix, u.plen / 8)
  }

  /** Flag 0x80: later updates may omit bytes of this prefix. */
  predicate PrefixFlag(c: Compression, u: Update) {
    !u.V4() && !u.Specific() && (c.prefix.None? || u.plen >= 48)
  }

  /** Flag 0x40: the router-id is the low half of this prefix. */
  predicate IdFlag(c: Compression, u: Update)
    requires u.Valid()
  {
    c.id != Some(u.id) && !u.Specific() && u.RealPlen() == 128 && u.prefix[8..] == u.id
  }

  function NhPart(c: Compression, u: Update): Bytes
    requires u.Valid()
  {
    if u.V4() && c.nh != Some(u.ipv4) then [NH, 6, 1, 0] + u.ipv4 else []
  }

  function IdPart(c: Compression, u: Update): Bytes
    requires u.Valid()
  {
    if c.id != Some(u.id) && !IdFlag(c, u) then [ROUTER_ID, 10, 0, 0] + u.id else []
  }

  function ChannelPart(u: Update): (part: Bytes)
    requires u.Valid()
    ensures |part| <= MAX_CHANNEL_HOPS + 2
  {
    if u.channels.Some? then [SUBTLV_DIVERSITY, |u.channels.value|] + u.channels.value else []
  }

  function SourcePart(u: Update): (part: Bytes)
    requires u.Valid()
    ensures |part| <= 16
  {
    if u.Specific() then u.RealSrcPrefix()[..Ceil8(u.RealSrcPlen())] else []
  }

  function PrefixPart(c: Compression, u: Update): (part: Bytes)
    requires u.Valid()
    ensures |part| <= 16
  {
    u.RealPrefix()[Omit(c, u)..Ceil8(u.RealPlen())]
  }

  function Flags(c: Compression, u: Update): U8
    requires u.Valid()
  {
    (if PrefixFlag(c, u) then 0x80 else 0) + (if IdFlag(c, u) then 0x40 else 0)
  }

  function Length(c: Compression, u: Update): U8
    requires u.Valid()
  {
    10 + |PrefixPart(c, u)| + |SourcePart(u)| + |ChannelPart(u)|
  }

  function UpdateHeader(c: Compression, u: Update): (h: Bytes)
    requires u.Valid()
    ensures |h| == 12
  {
    [if u.Specific() then UPDATE_SRC_SPECIFIC else UPDATE, Length(c, u),
     if u.V4() then 1 else 2, if u.Specific() then u.RealSrcPlen() else Flags(c, u), u.RealPlen(), Omit(c, u)]
    + Short(u.interval) + Short(u.seqno) + Short(u.metric)
  }

  function UpdatePart(c: Compression, u: Update): Bytes
    requires u.Valid()
  {
    UpdateHeader(c, u) + PrefixPart(c, u) + SourcePart(u) + ChannelPart(u)
  }

  /** The bytes that one update adds to the packet. */
  function Encode(c: Compression, u: Update): Bytes
    requires u.Valid()
  {
    NhPart(c, u) + IdPart(c, u) + UpdatePart(c, u)
  }

  function After(c: Compression, u: Update): Compression
    requires u.Valid()
  {
    Compression(Some(u.id), if u.V4() then Some(u.ipv4) else c.nh,
                if PrefixFlag(c, u) then Some(u.prefix) else c.prefix)
  }

  /** The space that really_send_update reserves is enough for any update, whatever has been sent before. */
  lemma ReservationSuffices(c: Compression, u: Update)
    requires u.Valid()
    ensures |NhPart(c, u)| <= 20 && |IdPart(c, u)| <= 12
    ensures |NhPart(c, u)| + |IdPart(c, u)| + |UpdatePart(c, u)| <= 20 + 12 + 28 + 18
  {
  }

  /** Where the families differ: an IPv4 prefix counts without the 12 bytes of its mapping. */
  function Shift(u: Update): nat { if u.plen >= 96 && V4Mapped(u.prefix) then 12 else 0 }

  /** Two bytes, the high one first. */
  function Two(high: int, low: int): int { 256 * high + low }

  /** The update TLV of section 4.4.9 of RFC 6126: type 8, or 13 and the length of the source prefix in the place of
      the flags; its length; the address encoding; the lengths of the prefix and of what is left out of it; interval,
      number and metric, high bytes first. */
  lemma HeaderLayout(c: Compression, u: Update)
    requires u.Valid()
    ensures var m, n := UpdateHeader(c, u), 8 * Shift(u);
            && m[0] == (if u.srcPlen == 0 then 8 else 13) && m[1] == |UpdatePart(c, u)| - 2
            && m[2] == (if Shift(u) > 0 then 1 else 2) && m[4] == u.plen - n && m[5] == Omit(c, u)
            && (u.srcPlen != 0 ==> m[3] == u.srcPlen - n)
            && Two(m[6], m[7]) == u.interval && Two(m[8], m[9]) == u.seqno && Two(m[10], m[11]) == u.metric
  {
    hide Omit, Flags, V4Mapped, Normalize, PrefixPart, SourcePart, ChannelPart;
  }

  /** Then what is left of the prefix, the source prefix, and the channels as sub-TLV 2. */
  lemma ContentLayout(c: Compression, u: Update)
    requires u.Valid()
    ensures UpdatePart(c, u) == UpdateHeader(c, u) + PrefixPart(c, u) + SourcePart(u) + ChannelPart(u)
    ensures PrefixPart(c, u) == u.prefix[Shift(u)..][Omit(c, u)..(u.plen - 8 * Shift(u) + 7) / 8]
    ensures SourcePart(u)
            == if u.srcPlen == 0 then [] else u.srcPrefix[Shift(u)..][..(u.srcPlen - 8 * Shift(u) + 7) / 8]
    ensures u.channels == None ==> ChannelPart(u) == []
    ensures u.channels.Some? ==>
              && |ChannelPart(u)| == 2 + |u.channels.value| && ChannelPart(u)[0] == 2
              && ChannelPart(u)[1] == |u.channels.value| && ChannelPart(u)[2..] == u.channels.value
  {
    hide Omit, Flags, Normalize;
  }

  /** As many bytes of a prefix are left out as it shares with the one it is compressed against, if there is one;
      never more than the whole ones, and none of an IPv4 prefix. */
  lemma OmitExactly(c: Compression, u: Update)
    requires u.Valid()
    ensures Shift(u) > 0 || c.prefix == None ==> Omit(c, u) == 0
    ensures Shift(u) == 0 && c.prefix.Some? ==>
              && u.prefix[..Omit(c, u)] == c.prefix.value[..Omit(c, u)] && 8 * Omit(c, u) <= u.plen
              && (8 * (Omit(c, u) + 1) <= u.plen ==> u.prefix[Omit(c, u)] != c.prefix.value[Omit(c, u)])
  {
    hide Normalize, V4Mapped;
  }

  /** The flags: 0x80 on a prefix that later ones may be compressed against, 0x40 on one whose low half is the id.
      Only IPv6 prefixes that are not source-specific are compressed against: the first, and those of at least 48
      bits. */
  lemma FlagBits(c: Compression, u: Update)
    requires u.Valid()
    ensures var v4, flags := u.plen >= 96 && V4Mapped(u.prefix), UpdatePart(c, u)[3];
            u.srcPlen == 0 ==>
              && flags % 0x40 == 0
              && (flags >= 0x80 <==> !v4 && (c.prefix == None || u.plen >= 48))
              && (flags % 0x80 >= 0x40 <==> c.id != Some(u.id) && !v4 && u.plen == 128 && u.prefix[8..] == u.id)
  {
    hide V4Mapped, Normalize, Omit;
  }

  /** The router-id and next hop TLVs, types 6 and 7, are there if the receiver does not know the id, and cannot take
      it from the prefix; and for IPv4 if it does not know the next hop. */
  lemma OtherParts(c: Compression, u: Update)
    requires u.Valid()
    ensures var v4 := u.plen >= 96 && V4Mapped(u.prefix);
            && NhPart(c, u) == (if v4 && c.nh != Some(u.ipv4) then [7, 6, 1, 0] + u.ipv4 else [])
            && IdPart(c, u) == (if c.id == Some(u.id)
                                   || (!v4 && u.srcPlen == 0 && u.plen == 128 && u.prefix[8..] == u.id)
                                then [] else [6, 10, 0, 0] + u.id)
  {
    hide Normalize;
  }

  /** No smaller reservation is. */
  lemma ReservationIsTight()
    ensures exists c, u: Update :: u.Valid() && |Encode(c, u)| == 20 + 12 + 28 + 18
  {
    var ones: Address := [1, 1, 1, 1, 1, 1, 1, 1, 1, 1, 1, 1, 1, 1, 1, 1];
    var u := Update([1, 1, 1, 1, 1, 1, 1, 1], ones, 128, ones, 128, 0, 0,
                    Some([0, 0, 0, 0, 0, 0, 0, 0, 0, 0, 0, 0, 0, 0, 0, 0, 0, 0, 0, 0]), [0, 0, 0, 0], 0);
    assert !V4Mapped(ones) by { assert ones[..12][0] == 1; }
    assert |PrefixPart(FRESH, u)| == 16 && |SourcePart(u)| == 16 && |ChannelPart(u)| == 22;
    assert u.Valid() && |Encode(FRESH, u)| == 78;
  }

  // ---------------------------------------------------------------- parsing

  /** What parse_packet remembers while it walks a packet. */
  datatype Parser = Parser(routerId: Option<Bytes>, v4Prefix: Option<Address>, v6Prefix: Option<Address>,
                           v4Nh: Option<Address>, v6Nh: Option<Address>)

  const START := Parser(None, None, None, None, None)

  /** The receiving interface: whether it has an IPv4 address, and whether it is flagged as far away. */
  datatype Receiver = Receiver(ipv4: bool, faraway: bool)

  /** The arguments of update_route. `nh` is None when the next hop is the sender's own address; `channels`
      is None where the code leaves them unset. */
  datatype Record = Record(id: Bytes, prefix: Address, plen: U8, srcPrefix: Address, srcPlen: U8,
                           seqno: U16, metric: U16, interval: U16, nh: Option<Address>, channels: Option<Bytes>)

  datatype Event = Learned(record: Record) | NeighbourRetracted

  function ToShort(m: Bytes): U16
    requires |m| >= 2
  {
    var high: int, low: int := m[0], m[1];
    256 * high + low
  }

  /** network_prefix: the prefix and the number of bytes taken from `p`, of which `len` belong to the
      message. `plen` is -1 for a host address. */
  function NetworkPrefix(ae: U8, plen: int, omitted: U8, p: Bytes, dp: Option<Address>, len: int)
    : Option<(Address, nat)>
    requires -1 <= plen <= 255 && |p| >= len
  {
    var pb := if plen >= 0 then Ceil8(plen) else if ae == 1 then 4 else 16;
    if pb > 16 then None
    else if ae == 0 then Some((Normalize(ZEROES, if plen < 0 then 128 else plen), 0))
    else if ae == 1 then
      if omitted > 4 || pb > 4 || (pb > omitted && len < pb - omitted) then None
      else if omitted > 0 && (dp.None? || !V4Mapped(dp.value)) then None
      else if pb < omitted then None
      else
        var base: Bytes := (if omitted > 0 then dp.value[..12 + omitted] else V4PREFIX) + p[..pb - omitted];
        Some((Normalize(base + ZEROES[12 + pb..], if plen < 0 then 128 else plen + 96), pb - omitted))
    else if ae == 2 then
      if omitted > 16 || (pb > omitted && len < pb - omitted) then None
      else if omitted > 0 && (dp.None? || V4Mapped(dp.value)) then None
      else if pb < omitted then None
      else
        var base: Bytes := (if omitted > 0 then dp.value[..omitted] else []) + p[..pb - omitted];
        Some((Normalize(base + ZEROES[pb..], if plen < 0 then 128 else plen), pb - omitted))
    else if ae == 3 then
      if pb < 8 || (pb > 8 && len < pb - 8) then None
      else
        var base: Bytes := [0xFE, 0x80, 0, 0, 0, 0, 0, 0] + p[..pb - 8];
        Some((Normalize(base + ZEROES[pb..], if plen < 0 then 128 else plen), pb - 8))
    else None
  }

  /** The bytes of a prefix before it is cut to its length: what is left out is taken from the default prefix, or is
      fe80::/64 in encoding 3, or zero in encoding 0; the rest was sent. */
  function PrefixByte(ae: U8, omitted: U8, p: Bytes, dp: Option<Address>, k: nat): int {
    if ae == 0 then 0
    else if ae == 3 then
      if k == 0 then 0xFE else if k == 1 then 0x80 else if 8 <= k && k - 8 < |p| then p[k - 8] else 0
    else if k < omitted then (if dp.Some? && Skip(ae) + k < 16 then dp.value[Skip(ae) + k] else 0)
    else if k - omitted < |p| then p[k - omitted] else 0
  }

  /** An IPv4 prefix is found behind the 12 bytes of its mapping. */
  function Skip(ae: U8): nat { if ae == 1 then 12 else 0 }

  /** How many bytes of a prefix of `bytes` are not sent. */
  function NotSent(ae: U8, omitted: U8, bytes: nat): nat { if ae == 0 then bytes else if ae == 3 then 8 else omitted }

  /** Which prefixes are accepted: those of a known encoding and not too long, of which no more is left out than there
      is, if the rest has arrived and there is a default prefix of the family to take the others from. */
  lemma NetworkPrefixAccepts(ae: U8, plen: U8, omitted: U8, p: Bytes, dp: Option<Address>, len: nat)
    requires |p| >= len
    ensures var bytes := (plen + 7) / 8;
            NetworkPrefix(ae, plen, omitted, p, dp, len).Some? <==>
              && ae <= 3 && bytes <= (if ae == 1 then 4 else 16) && NotSent(ae, omitted, bytes) <= bytes
              && len >= bytes - NotSent(ae, omitted, bytes)
              && (omitted > 0 && (ae == 1 || ae == 2) ==> dp.Some? && V4Mapped(dp.value) == (ae == 1))
  {
    hide V4Mapped, Normalize;
  }

  /** What they are: the bytes as above, cut to the length of the prefix, and zeroes behind them. */
  lemma NetworkPrefixExactly(ae: U8, plen: U8, omitted: U8, p: Bytes, dp: Option<Address>, len: nat)
    requires |p| >= len && NetworkPrefix(ae, plen, omitted, p, dp, len).Some?
    ensures var (a, used), n := NetworkPrefix(ae, plen, omitted, p, dp, len).value, Skip(ae);
            && used == (plen + 7) / 8 - NotSent(ae, omitted, (plen + 7) / 8)
            && (ae == 1 ==> V4Mapped(a))
            && (forall i :: n <= i < n + plen / 8 ==> a[i] == PrefixByte(ae, omitted, p, dp, i - n))
            && (forall i :: n + (plen + 7) / 8 <= i < 16 ==> a[i] == 0)
            && (plen % 8 != 0 ==>
                  var b := PrefixByte(ae, omitted, p, dp, plen / 8);
                  0 <= b < 0x100 && a[n + plen / 8] == KeepTop(b, plen % 8))
  {
    hide KeepTop, Normalize, NetworkPrefix, PrefixByte;
    NetworkPrefixAccepts(ae, plen, omitted, p, dp, len);
    var q := Gathered(ae, plen, omitted, p, dp, len);
    NormalizeBytes(q, plen + 8 * Skip(ae));
  }

  lemma NormalizeBytes(q: Address, plen: U8)
    requires plen <= 128
    ensures var a := Normalize(q, plen);
            && (forall i :: 0 <= i < plen / 8 ==> a[i] == q[i])
            && (forall i :: (plen + 7) / 8 <= i < 16 ==> a[i] == 0)
            && (plen % 8 != 0 ==> a[plen / 8] == KeepTop(q[plen / 8], plen % 8))
  {
    hide KeepTop;
  }

  lemma Gathered(ae: U8, plen: U8, omitted: U8, p: Bytes, dp: Option<Address>, len: nat) returns (q: Address)
    requires |p| >= len && NetworkPrefix(ae, plen, omitted, p, dp, len).Some?
    ensures plen + 8 * Skip(ae) <= 128
    ensures NetworkPrefix(ae, plen, omitted, p, dp, len)
            == Some((Normalize(q, plen + 8 * Skip(ae)), (plen + 7) / 8 - NotSent(ae, omitted, (plen + 7) / 8)))
    ensures ae == 1 ==> q[..12] == V4PREFIX
    ensures forall i :: Skip(ae) <= i < Skip(ae) + (plen + 7) / 8 ==>
              q[i] == PrefixByte(ae, omitted, p, dp, i - Skip(ae))
  {
    hide NetworkPrefix, Normalize, PrefixByte, V4Mapped;
    NetworkPrefixAccepts(ae, plen, omitted, p, dp, len);
    if ae == 0 {
      q := GatheredNone(plen, omitted, p, dp, len);
    } else if ae == 1 {
      q := GatheredMapped(plen, omitted, p, dp, len);
    } else if ae == 2 {
      q := GatheredPlain(plen, omitted, p, dp, len);
    } else {
      q := GatheredLocal(plen, omitted, p, dp, len);
    }
  }

  lemma GatheredNone(plen: U8, omitted: U8, p: Bytes, dp: Option<Address>, len: nat) returns (q: Address)
    requires |p| >= len && NetworkPrefix(0, plen, omitted, p, dp, len).Some?
    ensures NetworkPrefix(0, plen, omitted, p, dp, len) == Some((Normalize(q, plen), 0))
    ensures forall i :: 0 <= i < 16 ==> q[i] == PrefixByte(0, omitted, p, dp, i)
  {
    hide Normalize;
    q := ZEROES;
  }

  lemma GatheredMapped(plen: U8, omitted: U8, p: Bytes, dp: Option<Address>, len: nat) returns (q: Address)
    requires |p| >= len && NetworkPrefix(1, plen, omitted, p, dp, len).Some?
    ensures NetworkPrefix(1, plen, omitted, p, dp, len) == Some((Normalize(q, plen + 96), (plen + 7) / 8 - omitted))
    ensures q[..12] == V4PREFIX
    ensures forall i :: 12 <= i < 12 + (plen + 7) / 8 ==> q[i] == PrefixByte(1, omitted, p, dp, i - 12)
  {
    hide Normalize, PrefixByte;
    var pb := Ceil8(plen);
    var head: Bytes := if omitted > 0 then dp.value[..12 + omitted] else V4PREFIX;
    var sent := p[..pb - omitted];
    Joined(head, sent, 12 + pb);
    q := head + sent + ZEROES[12 + pb..];
    forall k | 0 <= k < pb ensures q[12 + k] == PrefixByte(1, omitted, p, dp, k) {
      ByteIs(1, omitted, p, dp, k);
    }
  }

  lemma GatheredPlain(plen: U8, omitted: U8, p: Bytes, dp: Option<Address>, len: nat) returns (q: Address)
    requires |p| >= len && NetworkPrefix(2, plen, omitted, p, dp, len).Some?
    ensures NetworkPrefix(2, plen, omitted, p, dp, len) == Some((Normalize(q, plen), (plen + 7) / 8 - omitted))
    ensures forall i :: 0 <= i < (plen + 7) / 8 ==> q[i] == PrefixByte(2, omitted, p, dp, i)
  {
    hide Normalize, PrefixByte;
    var pb := Ceil8(plen);
    var head: Bytes := if omitted > 0 then dp.value[..omitted] else [];
    var sent := p[..pb - omitted];
    Joined(head, sent, pb);
    q := head + sent + ZEROES[pb..];
    forall k | 0 <= k < pb ensures q[k] == PrefixByte(2, omitted, p, dp, k) {
      ByteIs(2, omitted, p, dp, k);
    }
  }

  lemma GatheredLocal(plen: U8, omitted: U8, p: Bytes, dp: Option<Address>, len: nat) returns (q: Address)
    requires |p| >= len && NetworkPrefix(3, plen, omitted, p, dp, len).Some?
    ensures NetworkPrefix(3, plen, omitted, p, dp, len) == Some((Normalize(q, plen), (plen + 7) / 8 - 8))
    ensures forall i :: 0 <= i < (plen + 7) / 8 ==> q[i] == PrefixByte(3, omitted, p, dp, i)
  {
    hide Normalize, PrefixByte;
    var pb := Ceil8(plen);
    var head: Bytes := [0xFE, 0x80, 0, 0, 0, 0, 0, 0];
    var sent := p[..pb - 8];
    Joined(head, sent, pb);
    q := head + sent + ZEROES[pb..];
    forall k | 0 <= k < pb ensures q[k] == PrefixByte(3, omitted, p, dp, k) {
      ByteIs(3, omitted, p, dp, k);
    }
  }

  lemma Joined(head: Bytes, sent: Bytes, n: nat)
    requires |head| + |sent| == n <= 16
    ensures var q := head + sent + ZEROES[n..];
            |q| == 16 && q[..|head|] == head && (forall i :: |head| <= i < n ==> q[i] == sent[i - |head|])
            && (forall i :: 0 <= i < |head| ==> q[i] == head[i])
  {
  }

  lemma ByteIs(ae: U8, omitted: U8, p: Bytes, dp: Option<Address>, k: nat)
    ensures var b := PrefixByte(ae, omitted, p, dp, k);
            && (ae == 0 ==> b == 0)
            && (ae == 3 && k < 8 ==> b == [0xFE, 0x80, 0, 0, 0, 0, 0, 0][k])
            && (ae == 3 && 8 <= k < |p| + 8 ==> b == p[k - 8])
            && (ae in {1, 2} && k < omitted && dp.Some? && Skip(ae) + k < 16 ==> b == dp.value[Skip(ae) + k])
            && (ae in {1, 2} && omitted <= k < |p| + omitted ==> b == p[k - omitted])
  {
  }

  /** The loop of parse_update_subtlv over the `alen` bytes of `a`, which two more bytes follow in memory. */
  function SubTlvs(a: Bytes, alen: int, channels: Bytes): Option<Bytes>
    requires |a| >= alen + 2
    decreases alen
  {
    if alen <= 0 then Some(channels)
    else if a[0] == SUBTLV_PAD1 then SubTlvs(a[1..], alen - 1, channels)
    else
      var len := a[1];
      if len > alen then None
      else
        var channels1 := if a[0] == SUBTLV_DIVERSITY then a[2..2 + Min(len, MAX_CHANNEL_HOPS)] else channels;
        if alen - len - 2 <= 0 then Some(channels1) else SubTlvs(a[len + 2..], alen - len - 2, channels1)
  }

  function DefaultChannels(rx: Receiver, metric: U16): Bytes {
    if rx.faraway || metric < 256 then [] else [CHANNEL_INTERFERING]
  }

  predicate HasFlag(flags: U8, bit: U8)
    requires bit in {0x40, 0x80}
  {
    flags / bit % 2 == 1
  }

  /** The branch of MESSAGE_NH; `m` is the memory from the start of the message. */
  function ParseNh(ps: Parser, m: Bytes, len: U8): Parser
    requires |m| >= len + 4
  {
    var failed := ps.(v4Nh := None, v6Nh := None);
    if len < 2 then failed
    else
      match NetworkPrefix(m[2], -1, 0, m[4..], None, len - 2)
      case None => failed
      case Some((nh, _)) => if m[2] == 1 then ps.(v4Nh := Some(nh)) else ps.(v6Nh := Some(nh))
  }

  /** The next hop of an update: None when it has to be dropped. */
  function NextHop(ps: Parser, ae: U8): Option<Option<Address>> {
    if ae == 1 then (if ps.v4Nh.None? then None else Some(ps.v4Nh)) else Some(ps.v6Nh)
  }

  function WithUpdateFlags(ps: Parser, ae: U8, flags: U8, prefix: Address): Parser {
    var ps1 := if !HasFlag(flags, 0x80) then ps
               else if ae == 1 then ps.(v4Prefix := Some(prefix)) else ps.(v6Prefix := Some(prefix));
    if !HasFlag(flags, 0x40) then ps1
    else if ae == 1 then ps1.(routerId := Some([0, 0, 0, 0] + prefix[12..]))
    else ps1.(routerId := Some(prefix[8..]))
  }

  /** The TLV has been decoded: what follows in the branch of MESSAGE_UPDATE. */
  function FinishUpdate(rx: Receiver, ps: Parser, ae: U8, flags: U8, plen: U8, prefix: Address, seqno: U16, metric: U16,
                        interval: U16, channels: Option<Bytes>): (Parser, seq<Event>)
  {
    var ps1 := WithUpdateFlags(ps, ae, flags, prefix);
    if ae == 0 then (ps1, if metric < INFINITY then [] else [NeighbourRetracted])
    else if ps1.routerId.None? then (ps1, [])
    else if NextHop(ps1, ae).None? || (ae == 1 && !rx.ipv4) then (ps1, [])
    else (ps1, [Learned(Record(ps1.routerId.value, prefix, plen, ZEROES, 0, seqno, metric, interval,
                               NextHop(ps1, ae).value, channels))])
  }

  /** The prefix of an update, with the bytes that it leaves out. */
  function UpdatePrefix(ps: Parser, m: Bytes, len: U8): Option<(Address, nat)>
    requires 10 <= len && |m| >= len + 4
  {
    var base := if m[2] == 1 then ps.v4Prefix else ps.v6Prefix;
    if m[5] == 0 || base.Some? then NetworkPrefix(m[2], m[4], m[5], m[12..], base, len - 10) else None
  }

  /** The channels of an update whose sub-TLVs start after `parsed` bytes. */
  function UpdateChannels(rx: Receiver, m: Bytes, len: U8, parsed: nat): Option<Bytes>
    requires 10 <= len && |m| >= len + 4
  {
    if parsed > len then None else SubTlvs(m[parsed + 2..], len - parsed, DefaultChannels(rx, ToShort(m[10..])))
  }

  /** The length of an IPv4 prefix counts the 96 bits of the mapping, in an unsigned char. */
  function ShiftedPlen(ae: U8, plen: U8): U8 {
    if ae != 1 then plen else if plen < 160 then plen + 96 else plen - 160
  }

  /** The branch of MESSAGE_UPDATE. */
  function ParseUpdate(rx: Receiver, ps: Parser, m: Bytes, len: U8): (Parser, seq<Event>)
    requires |m| >= len + 4
  {
    var failed := if len < 2 || HasFlag(m[3], 0x80) then ps.(v4Prefix := None, v6Prefix := None) else ps;
    if len < 10 then (failed, [])
    else
      var parsed := UpdatePrefix(ps, m, len);
      if parsed.None? then (failed, [])
      else FinishUpdate(rx, ps, m[2], m[3], ShiftedPlen(m[2], m[4]), parsed.value.0, ToShort(m[8..]), ToShort(m[10..]),
                        ToShort(m[6..]), UpdateChannels(rx, m, len, 10 + parsed.value.1))
  }

  /** The source prefix, which starts after `parsed` bytes and is never compressed. */
  function SourcePrefix(m: Bytes, len: U8, parsed: nat): Option<(Address, nat)>
    requires 10 <= len && |m| >= len + 4
  {
    if parsed > len then None else NetworkPrefix(m[2], m[3], 0, m[parsed + 2..], None, len - parsed)
  }

  /** What follows in the branch of MESSAGE_UPDATE_SRC_SPECIFIC. */
  function FinishSpecific(rx: Receiver, ps: Parser, ae: U8, plen: U8, prefix: Address, srcPlen: U8, srcPrefix: Address,
                          seqno: U16, metric: U16, interval: U16, channels: Option<Bytes>): seq<Event>
  {
    if ps.routerId.None? then []
    else if ae == 0 then [NeighbourRetracted]
    else if NextHop(ps, ae).None? || (ae == 1 && !rx.ipv4) then []
    else [Learned(Record(ps.routerId.value, prefix, plen, srcPrefix, srcPlen, seqno, metric, interval,
                         NextHop(ps, ae).value, channels))]
  }

  /** The branch of MESSAGE_UPDATE_SRC_SPECIFIC. */
  function ParseSpecific(rx: Receiver, ps: Parser, m: Bytes, len: U8): seq<Event>
    requires |m| >= len + 4
  {
    if len < 10 then []
    else
      var parsed := UpdatePrefix(ps, m, len);
      if parsed.None? then []
      else
        var rc := parsed.value.1;
        var source := SourcePrefix(m, len, 10 + rc);
        if source.None? then []
        else
          FinishSpecific(rx, ps, m[2], ShiftedPlen(m[2], m[4]), parsed.value.0, ShiftedPlen(m[2], m[3]), source.value.0,
                         ToShort(m[8..]), ToShort(m[10..]), ToShort(m[6..]),
                         UpdateChannels(rx, m, len, 10 + rc + source.value.1))
  }

  /** One message. Other types do not touch what updates depend on. */
  function ParseMessage(rx: Receiver, ps: Parser, m: Bytes, len: U8): (Parser, seq<Event>)
    requires |m| >= len + 4
  {
    if m[0] == ROUTER_ID then (ps.(routerId := if len < 10 then None else Some(m[4..12])), [])
    else if m[0] == NH then (ParseNh(ps, m, len), [])
    else if m[0] == UPDATE then ParseUpdate(rx, ps, m, len)
    else if m[0] == UPDATE_SRC_SPECIFIC then (ps, ParseSpecific(rx, ps, m, len))
    else (ps, [])
  }

  /** parse_packet from a message on: `n` bytes of body remain, and four more follow in memory, since the
      truncation checks of the code are that generous. */
  function ParseBody(rx: Receiver, ps: Parser, m: Bytes, n: int): seq<Event>
    requires |m| >= n + 4
    decreases n
  {
    if n <= 0 then []
    else if m[0] == PAD1 then ParseBody(rx, ps, m[1..], n - 1)
    else
      var len := m[1];
      if len > n then []
      else
        var (ps1, events) := ParseMessage(rx, ps, m, len);
        events + (if n - len - 2 <= 0 then [] else ParseBody(rx, ps1, m[len + 2..], n - len - 2))
  }

  // ---------------------------------------------------------------- what the parser makes of any message

  predicate Bit80(flags: U8) { flags >= 0x80 }

  predicate Bit40(flags: U8) { flags % 0x80 >= 0x40 }

  lemma Flags80And40(flags: U8)
    ensures HasFlag(flags, 0x80) <==> Bit80(flags)
    ensures HasFlag(flags, 0x40) <==> Bit40(flags)
  {
  }

  /** A next hop is an IPv4 address in 4 bytes, an IPv6 address in 16, the lower half of a link-local one in 8, or the
      unspecified one; if it is anything else, or truncated, all next hops are forgotten. */
  lemma NextHopParsed(ps: Parser, m: Bytes, len: U8)
    requires |m| >= len + 4
    ensures ParseNh(ps, m, len)
            == if len >= 6 && m[2] == 1 then ps.(v4Nh := Some(V4PREFIX + m[4..8]))
               else if len >= 18 && m[2] == 2 then ps.(v6Nh := Some(m[4..20]))
               else if len >= 10 && m[2] == 3 then ps.(v6Nh := Some([0xFE, 0x80, 0, 0, 0, 0, 0, 0] + m[4..12]))
               else if len >= 2 && m[2] == 0 then ps.(v6Nh := Some(ZEROES))
               else ps.(v4Nh := None, v6Nh := None)
  {
    hide NetworkPrefix;
    if len >= 2 {
      HostAddress(m[2], m[4..], len - 2);
      assert len >= 6 ==> m[4..][..4] == m[4..8];
      assert len >= 10 ==> m[4..][..8] == m[4..12];
      assert len >= 18 ==> m[4..][..16] == m[4..20];
    }
  }

  lemma HostAddress(ae: U8, p: Bytes, len: nat)
    requires |p| >= len
    ensures NetworkPrefix(ae, -1, 0, p, None, len)
            == if ae == 0 then Some((ZEROES, 0))
               else if ae == 1 && len >= 4 then Some((V4PREFIX + p[..4], 4))
               else if ae == 2 && len >= 16 then Some((p[..16], 16))
               else if ae == 3 && len >= 8 then Some(([0xFE, 0x80, 0, 0, 0, 0, 0, 0] + p[..8], 8))
               else None
  {
    hide V4Mapped;
    assert len >= 4 ==> V4PREFIX + p[..4] + ZEROES[16..] == V4PREFIX + p[..4];
    assert len >= 16 ==> [] + p[..16] + ZEROES[16..] == p[..16];
    var local: Bytes := [0xFE, 0x80, 0, 0, 0, 0, 0, 0];
    assert len >= 8 ==> local + p[..8] + ZEROES[16..] == local + p[..8];
  }

  /** What remains of the parser's state when an update cannot be decoded: the default prefixes are forgotten if it
      was to set one, or if that cannot be told. */
  lemma UpdateUndecoded(rx: Receiver, ps: Parser, m: Bytes, len: U8)
    requires |m| >= len + 4 && (len < 10 || UpdatePrefix(ps, m, len) == None)
    ensures ParseUpdate(rx, ps, m, len)
            == (if len < 2 || Bit80(m[3]) then ps.(v4Prefix := None, v6Prefix := None) else ps, [])
  {
    hide UpdatePrefix, HasFlag;
    Flags80And40(m[3]);
  }

  /** A prefix with omitted bytes needs a default prefix. */
  lemma NoDefault(ps: Parser, m: Bytes, len: U8)
    requires 10 <= len && |m| >= len + 4 && m[5] != 0
    requires if m[2] == 1 then ps.v4Prefix == None else ps.v6Prefix == None
    ensures UpdatePrefix(ps, m, len) == None
  {
    hide NetworkPrefix;
  }

  /** The state after an update that was decoded: the flags set the default prefix of its family, and the id. */
  ghost predicate Remembers(ps: Parser, after: Parser, ae: U8, flags: U8, prefix: Address) {
    && after.v4Prefix == (if Bit80(flags) && ae == 1 then Some(prefix) else ps.v4Prefix)
    && after.v6Prefix == (if Bit80(flags) && ae != 1 then Some(prefix) else ps.v6Prefix)
    && after.routerId == (if !Bit40(flags) then ps.routerId
                          else Some(if ae == 1 then [0, 0, 0, 0] + prefix[12..] else prefix[8..]))
    && after.v4Nh == ps.v4Nh && after.v6Nh == ps.v6Nh
  }

  /** What is learned from it: that the neighbour has retracted everything, if it is a wildcard and infinite; nothing
      without an id, and nothing of IPv4 without a next hop or an address of one's own; otherwise the record. */
  ghost predicate Teaches(rx: Receiver, ps: Parser, m: Bytes, plen: U8, prefix: Address, srcPlen: U8,
                          srcPrefix: Address, channels: Option<Bytes>, events: seq<Event>)
    requires |m| >= 12
  {
    if ps.routerId == None || (m[2] == 1 && (ps.v4Nh == None || !rx.ipv4)) then events == []
    else events == [Learned(Record(ps.routerId.value, prefix, plen, srcPrefix, srcPlen, Two(m[8], m[9]),
                                   Two(m[10], m[11]), Two(m[6], m[7]), if m[2] == 1 then ps.v4Nh else ps.v6Nh,
                                   channels))]
  }

  lemma UpdateDecoded(rx: Receiver, ps: Parser, m: Bytes, len: U8)
    requires |m| >= len + 4 && len >= 10 && UpdatePrefix(ps, m, len).Some?
    ensures var (after, events) := ParseUpdate(rx, ps, m, len);
            var (prefix, rc) := UpdatePrefix(ps, m, len).value;
            && Remembers(ps, after, m[2], m[3], prefix)
            && if m[2] == 0 then events == (if Two(m[10], m[11]) == 0xFFFF then [NeighbourRetracted] else [])
               else Teaches(rx, after, m, if m[2] == 1 then (m[4] + 96) % 0x100 else m[4], prefix, 0, ZEROES,
                            UpdateChannels(rx, m, len, 10 + rc), events)
  {
    hide UpdatePrefix, HasFlag, UpdateChannels, Remembers, WithUpdateFlags, ToShort, ShiftedPlen, Two;
    Remembered(ps, m[2], m[3], UpdatePrefix(ps, m, len).value.0);
    Fields(m);
    Shifted(m[2], m[4]);
  }

  lemma Remembered(ps: Parser, ae: U8, flags: U8, prefix: Address)
    ensures Remembers(ps, WithUpdateFlags(ps, ae, flags, prefix), ae, flags, prefix)
  {
    hide HasFlag;
    Flags80And40(flags);
  }

  lemma Fields(m: Bytes)
    requires |m| >= 12
    ensures ToShort(m[6..]) == Two(m[6], m[7]) && ToShort(m[8..]) == Two(m[8], m[9])
    ensures ToShort(m[10..]) == Two(m[10], m[11])
  {
  }

  lemma Shifted(ae: U8, plen: U8)
    ensures ShiftedPlen(ae, plen) == if ae == 1 then (plen + 96) % 0x100 else plen
  {
  }

  /** A source-specific update teaches the same, with its source prefix, and never changes the state; whatever its
      metric, a wildcard retracts everything, but not without an id. */
  lemma SpecificDecoded(rx: Receiver, ps: Parser, m: Bytes, len: U8)
    requires |m| >= len + 4
    ensures len < 10 || UpdatePrefix(ps, m, len) == None ==> ParseSpecific(rx, ps, m, len) == []
    ensures len >= 10 && UpdatePrefix(ps, m, len).Some? ==>
              var (prefix, rc) := UpdatePrefix(ps, m, len).value;
              var events := ParseSpecific(rx, ps, m, len);
              match SourcePrefix(m, len, 10 + rc)
              case None => events == []
              case Some((source, src)) =>
                if m[2] == 0 then events == (if ps.routerId == None then [] else [NeighbourRetracted])
                else Teaches(rx, ps, m, if m[2] == 1 then (m[4] + 96) % 0x100 else m[4], prefix,
                             if m[2] == 1 then (m[3] + 96) % 0x100 else m[3], source,
                             UpdateChannels(rx, m, len, 10 + rc + src), events)
  {
    hide UpdatePrefix, SourcePrefix, UpdateChannels, ToShort, ShiftedPlen, Two;
    if len >= 10 {
      Fields(m);
      Shifted(m[2], m[4]);
      Shifted(m[2], m[3]);
    }
  }

  /** The sub-TLVs one by one: padding is skipped, channels replace what was there, at most 20 of them, others are
      skipped; nothing is known if one claims to be longer than what is left. */
  lemma SubTlvsStep(a: Bytes, alen: nat, channels: Bytes)
    requires |a| >= alen + 2 && alen > 0
    ensures a[0] == 0 ==> SubTlvs(a, alen, channels) == SubTlvs(a[1..], alen - 1, channels)
    ensures a[0] != 0 && a[1] > alen ==> SubTlvs(a, alen, channels) == None
    ensures a[0] != 0 && a[1] <= alen ==>
              var next := if a[0] == 2 then a[2..2 + (if a[1] <= 20 then a[1] else 20)] else channels;
              SubTlvs(a, alen, channels)
              == if a[1] + 2 >= alen then Some(next) else SubTlvs(a[a[1] + 2..], alen - a[1] - 2, next)
  {
  }

  /** Without any, the channels of a far or nearby link are unknown, and those of another one interfere. */
  lemma NoSubTlvs(a: Bytes, rx: Receiver, metric: U16)
    requires |a| >= 2
    ensures SubTlvs(a, 0, DefaultChannels(rx, metric)) == Some(if rx.faraway || metric <= 255 then [] else [255])
  {
  }
}
