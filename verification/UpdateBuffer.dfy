/** The send buffer of an interface and the loop of the parser (message.c): bytes are accumulated in place,
    packets are flushed when space runs out, and the compression state is reset with each packet. A flush first writes
    the updates that are due into the packet, which may flush again. */
module UpdateBuffer {
  import opened Common
  import opened Prefix
  import opened Wire
  import opened RoundTrip
  import opened UpdateOrder
  import opened UpdateFlush

  /** The items of all packets, in the order of sending. */
  ghost function Flatten(batches: seq<seq<Item>>): seq<Item> {
    if batches == [] then [] else Flatten(batches[..|batches| - 1]) + batches[|batches| - 1]
  }

  /** What a receiver learns from packets, each followed in memory by `past`. */
  ghost function LearnedFrom(rx: Receiver, packets: seq<Bytes>, past: Bytes): seq<Event>
    requires |past| >= 4
  {
    if packets == [] then []
    else LearnedFrom(rx, packets[..|packets| - 1], past) +
         ParseBody(rx, START, packets[|packets| - 1] + past, |packets[|packets| - 1]|)
  }

  /** The items that are written for what flushupdates sends. */
  ghost function Made(e: Environment, out: seq<Sent>): seq<Item>
    requires AllProper(out)
  {
    if out == [] then []
    else
      var n := |out| - 1;
      assert out[n] in out;
      Made(e, out[..n]) + ItemOf(WrittenFor(e, out[n]))
  }

  lemma MadeMore(e: Environment, list: seq<Sent>, i: nat, before: seq<Item>)
    requires AllProper(list) && i < |list|
    ensures Proper(list[i].pair) && AllProper(list[..i]) && AllProper(list[..i + 1])
    ensures before + Made(e, list[..i]) + ItemOf(WrittenFor(e, list[i])) == before + Made(e, list[..i + 1])
  {
    hide Proper, WrittenFor;
    assert list[i] in list && list[..i + 1][..i] == list[..i];
  }

  lemma NothingMade(e: Environment, list: seq<Sent>, before: seq<Item>)
    requires AllProper(list)
    ensures list[..|list|] == list && before + Made(e, list[..0]) == before
  {
  }

  function ItemOf(w: Option<Update>): seq<Item>
    requires w.Some? ==> w.value.Valid()
  {
    if w.Some? then [Upd(w.value)] else []
  }

  /** From what is buffered to what is written: the update for a prefix pair is among the items as often as flushupdates
      promises. */
  lemma MadeExactly(e: Environment, buffered: seq<Pair>, out: seq<Sent>, p: Pair)
    requires Flushed(e, buffered, out) && AllProper(out) && e.up && Proper(p)
    ensures var w := WrittenFor(e, Sent(p, Choose(e.lookup, p)));
            w.Some? ==> multiset(Made(e, out))[Upd(w.value)] == Times(Choose(e.lookup, p), multiset(buffered)[p])
  {
    hide WrittenFor, Made, Proper;
    SentWasBuffered(e, buffered, out);
    MadeOf(e, out, p);
  }

  lemma {:induction false} MadeOf(e: Environment, out: seq<Sent>, p: Pair)
    requires AllProper(out) && Proper(p) && forall x :: x in out ==> x.choice == Choose(e.lookup, x.pair)
    ensures var w := WrittenFor(e, Sent(p, Choose(e.lookup, p)));
            w.Some? ==> multiset(Made(e, out))[Upd(w.value)] == CountSent(out, p)
  {
    hide WrittenFor, Proper, Choose;
    if out != [] {
      var n := |out| - 1;
      assert out[n] in out;
      MadeOf(e, out[..n], p);
      assert out[n].pair == p ==> out[n] == Sent(p, Choose(e.lookup, p));
    }
  }

  /** What a receiver learns from the update that is written: the id, the prefix pair, the number and the raised
      metric that went in, and for IPv4 the address of the interface as the next hop. */
  lemma SaidIsLearned(rx: Receiver, w: Option<Update>, e: Environment, id: RouterId, p: Pair, seqno: U16, metric: U16,
                      channels: Option<Channels>)
    requires Says(w, e, id, p, seqno, metric, channels) && w.Some? && w.value.Valid()
    ensures var v4, learned := p.plen >= 96 && V4Mapped(p.prefix), MeantBy(rx, Upd(w.value));
            if v4 && !rx.ipv4 then learned == []
            else
              && |learned| == 1 && learned[0].Learned?
              && var r := learned[0].record;
                 && r.id == id && r.prefix == p.prefix && r.plen == p.plen && r.seqno == seqno
                 && r.srcPrefix == p.srcPrefix && r.srcPlen == p.srcPlen
                 && r.metric == Min(metric + e.filter(id, p), INFINITY)
                 && r.interval * 10 <= e.interval + 5 < r.interval * 10 + 10
                 && (e.diversity && channels.Some? ==> r.channels == Some(channels.value))
                 && (v4 ==> e.ipv4.Some? && r.nh == Some(V4PREFIX + e.ipv4.value))
                 && (!v4 ==> r.nh == None)
  {
    hide Proper, Update.Valid, V4Mapped;
  }

  /** Some of a sequence, in any order. */
  function Received<T>(s: seq<T>, which: seq<nat>): seq<T>
    requires forall i :: 0 <= i < |which| ==> which[i] < |s|
  {
    seq(|which|, i requires 0 <= i < |which| => s[which[i]])
  }

  class Interface {
    const sendbuf: array<U8>
    const qsort: seq<Entry> -> seq<Entry>
    var buffered: nat
    var bufferedId: Option<Bytes>
    var bufferedNh: Option<Bytes>
    var bufferedPrefix: Option<Address>
    /** buffered_updates */
    var queue: seq<Pair>
    var updateBufsize: nat
    /** The packets that were flushed. */
    var sent: seq<Bytes>
    /** What each packet, and the buffer, was made from. */
    ghost var batches: seq<seq<Item>>
    ghost var pending: seq<Item>

    ghost function Contents(): Bytes
      reads this, sendbuf
      requires buffered <= sendbuf.Length
    {
      sendbuf[..buffered]
    }

    function State(): Compression
      reads this
    {
      Compression(bufferedId, bufferedNh, bufferedPrefix)
    }

    ghost predicate Valid()
      reads this, sendbuf
    {
      && buffered <= sendbuf.Length
      && Contents() == EncodeAll(FRESH, pending)
      && State() == AfterAll(FRESH, pending)
      && |sent| == |batches|
      && (forall i | 0 <= i < |sent| :: sent[i] == EncodeAll(FRESH, batches[i]))
      && IsSort(qsort) && |queue| <= updateBufsize
    }

    /** Each update that is due fits into the buffer by itself. */
    ghost predicate Fits(e: Environment)
      reads this`queue
    {
      && (forall p :: p in queue ==> Proper(p))
      && forall p :: p in queue ==> FitsAlone(WrittenFor(e, Sent(p, Choose(e.lookup, p))))
    }

    predicate FitsAlone(w: Option<Update>)
      requires w.Some? ==> w.value.Valid()
    {
      w.Some? ==> |Encode(FRESH, w.value)| <= sendbuf.Length
    }

    /** Everything sent or buffered so far. */
    ghost function History(): seq<Item>
      reads this
    {
      Flatten(batches) + pending
    }

    constructor (bufsize: nat, qsort: seq<Entry> -> seq<Entry>)
      requires IsSort(qsort)
      ensures Valid() && History() == [] && queue == [] && sendbuf.Length == bufsize && fresh(sendbuf)
      ensures buffered == 0 && State() == FRESH && updateBufsize == 0 && sent == [] && this.qsort == qsort
    {
      sendbuf := new U8[bufsize](_ => 0);
      this.qsort, buffered, queue, updateBufsize := qsort, 0, [], 0;
      bufferedId, bufferedNh, bufferedPrefix := None, None, None;
      sent, batches, pending := [], [], [];
    }

    /** flushbuf: `out` is what flushupdates has sent. What is in the buffer then becomes a packet; whether the token
        bucket lets it out makes no difference here. */
    method FlushBuf(e: Environment) returns (ghost out: seq<Sent>)
      requires Valid() && Fits(e)
      modifies this, sendbuf
      ensures Valid() && buffered == 0 && State() == FRESH && pending == [] && queue == []
      ensures Flushed(e, old(queue), out) && AllProper(out) && History() == old(History()) + Made(e, out)
      ensures old(sent) <= sent && (old(queue) == [] ==> out == [] && |sent| <= |old(sent)| + 1)
      ensures updateBufsize == if queue == old(queue) then old(updateBufsize) else 0
      decreases |queue|, 3
    {
      out := FlushUpdates(e);
      Emit();
    }

    /** The second half of flushbuf. */
    method Emit()
      requires Valid()
      modifies `buffered, `bufferedId, `bufferedNh, `bufferedPrefix, `sent, `batches, `pending
      ensures Valid() && buffered == 0 && State() == FRESH && pending == [] && History() == old(History())
      ensures sent == if old(buffered) > 0 then old(sent) + [old(Contents())] else old(sent)
    {
      hide EncodeAll, AfterAll;
      NothingPending(pending);
      if buffered > 0 {
        sent := sent + [sendbuf[..buffered]];
        batches := batches + [pending];
        assert batches[..|batches| - 1] == old(batches);
      }
      pending := [];
      buffered := 0;
      bufferedId, bufferedNh, bufferedPrefix := None, None, None;
      EncodeNil(FRESH);
      assert Contents() == [];
    }

    /** flushupdates: the queue is emptied first, so that a flush in between finds nothing that is due. */
    method FlushUpdates(e: Environment) returns (ghost out: seq<Sent>)
      requires Valid() && Fits(e)
      modifies this, sendbuf
      ensures Valid() && queue == []
      ensures Flushed(e, old(queue), out) && AllProper(out) && History() == old(History()) + Made(e, out)
      ensures old(sent) <= sent && (old(queue) == [] ==> out == [] && sent == old(sent))
      ensures updateBufsize == if queue == old(queue) then old(updateBufsize) else 0
      decreases |queue|, 2
    {
      hide EncodeAll, AfterAll, Flatten, Flushed, Proper, WrittenFor, Written, FitsAlone, IsSort, Sorted, Choose;
      out := [];
      NothingFlushed(e);
      if |queue| > 0 {
        var b := queue;
        queue, updateBufsize := [], 0;
        if e.up {
          var list := Due(e, b);
          SentWasBuffered(e, b, list);
          SendAll(e, list);
          out := list;
        } else {
          DownFlushes(e, b);
        }
      }
    }

    /** What flushupdates sends, in the order of qsort. */
    method Due(e: Environment, b: seq<Pair>) returns (list: seq<Sent>)
      requires IsSort(qsort) && e.up
      ensures Flushed(e, b, list)
    {
      hide Sorted, Choose;
      var sorted := qsort(Stamped(e.lookup, b));
      list := UpdateFlush.FlushUpdates(e.lookup, true, b, sorted);
    }

    /** The calls of really_send_update in the loop of flushupdates. */
    method SendAll(e: Environment, list: seq<Sent>)
      requires Valid() && queue == [] && AllProper(list)
      requires forall x :: x in list ==> FitsAlone(WrittenFor(e, x))
      modifies this, sendbuf
      ensures Valid() && queue == [] && History() == old(History()) + Made(e, list) && old(sent) <= sent
      ensures updateBufsize == old(updateBufsize)
      decreases |queue|, 7
    {
      hide EncodeAll, AfterAll, Flatten, Proper, WrittenFor, Written, FitsAlone, IsSort, Encode, Made, ItemOf;
      NothingMade(e, list, History());
      var i := 0;
      while i < |list|
        invariant i <= |list| && Valid() && queue == [] && old(sent) <= sent && updateBufsize == old(updateBufsize)
        invariant AllProper(list[..i]) && History() == old(History()) + Made(e, list[..i])
      {
        assert list[i] in list;
        MadeMore(e, list, i, old(History()));
        SendOne(e, list[i]);
        i := i + 1;
      }
    }

    method SendOne(e: Environment, x: Sent)
      requires Valid() && queue == [] && Proper(x.pair) && FitsAlone(WrittenFor(e, x))
      modifies this, sendbuf
      ensures Valid() && queue == [] && History() == old(History()) + ItemOf(WrittenFor(e, x)) && old(sent) <= sent
      ensures updateBufsize == old(updateBufsize)
      decreases |queue|, 6
    {
      hide EncodeAll, AfterAll, Flatten, Proper, Written, FitsAlone, IsSort;
      assert History() + [] == History();
      ghost var out, w;
      match x.choice
      case Own(metric) => out, w := ReallySendUpdate(e, e.lookup.myId, x.pair, e.mySeqno, metric, Some([]));
      case Via(r) => out, w := ReallySendUpdate(e, r.id, x.pair, r.seqno, r.metric, Some(r.channels));
      case Suppressed =>
      case Retraction => out, w := ReallySendUpdate(e, e.lookup.myId, x.pair, e.mySeqno, INFINITY, None);
    }

    /** buffer_update; `estimate` is the number of updates that there may be. */
    method BufferUpdate(e: Environment, p: Pair, estimate: nat) returns (ghost out: seq<Sent>)
      requires Valid() && Fits(e)
      modifies this, sendbuf
      ensures Valid()
      ensures AllProper(out) && History() == old(History()) + Made(e, out)
      ensures if old(|queue| == updateBufsize > 0) then queue == [p] && Flushed(e, old(queue), out)
              else queue == old(queue) + [p] && out == []
      ensures updateBufsize == if queue == [p] && old(queue != [] || updateBufsize == 0)
                               then Max(estimate + 4, sendbuf.Length / 16) else old(updateBufsize)
    {
      hide EncodeAll, AfterAll, Flatten, Flushed, Proper, WrittenFor, FitsAlone;
      out := [];
      if |queue| > 0 && |queue| >= updateBufsize {
        out := FlushUpdates(e);
      }
      if updateBufsize == 0 {
        updateBufsize := Max(estimate + 4, sendbuf.Length / 16);
      }
      queue := queue + [p];
    }

    /** ensure_space: there is room for so many bytes afterwards, or nothing at all in the buffer. */
    method EnsureSpace(e: Environment, space: nat) returns (ghost out: seq<Sent>)
      requires Valid() && Fits(e)
      modifies this, sendbuf
      ensures Valid() && AllProper(out) && History() == old(History()) + Made(e, out)
      ensures sendbuf.Length - buffered >= space || (buffered == 0 && State() == FRESH)
      ensures if old(sendbuf.Length - buffered) >= space then queue == old(queue) && out == [] && sent == old(sent)
              else queue == [] && Flushed(e, old(queue), out)
      ensures old(sent) <= sent && (old(queue) == [] ==> out == [] && |sent| <= |old(sent)| + 1)
      ensures updateBufsize == if queue == old(queue) then old(updateBufsize) else 0
      decreases |queue|, 4
    {
      out := [];
      if sendbuf.Length - buffered < space {
        out := FlushBuf(e);
      }
    }

    /** start_message. The space has been reserved, so that it does not flush by itself. */
    method StartMessage(kind: U8, len: U8)
      requires buffered + len + 2 <= sendbuf.Length
      modifies `buffered, sendbuf
      ensures buffered <= sendbuf.Length && Contents() == old(Contents()) + [kind, len]
    {
      sendbuf[buffered] := kind;
      sendbuf[buffered + 1] := len;
      buffered := buffered + 2;
    }

    /** accumulate_bytes, and with it accumulate_byte and accumulate_short */
    method Accumulate(value: Bytes)
      requires buffered + |value| <= sendbuf.Length
      modifies `buffered, sendbuf
      ensures buffered <= sendbuf.Length && Contents() == old(Contents()) + value
    {
      forall i | 0 <= i < |value| {
        sendbuf[buffered + i] := value[i];
      }
      buffered := buffered + |value|;
    }

    /** The loop that counts the leading bytes shared with the remembered prefix. */
    method SharedBytes(p: Address, q: Address, n: nat) returns (omit: nat)
      requires n <= 16
      ensures omit == CommonBytes(p, q, n)
    {
      omit := 0;
      while omit < n && p[omit] == q[omit]
        invariant omit <= n && p[..omit] == q[..omit]
      {
        omit := omit + 1;
      }
      SharedUnique(p, q, n, omit);
    }

    /** The NH TLV, unless the receiver knows the next hop. */
    method SendNextHop(u: Update)
      requires u.Valid() && |u.ipv4| == 4 && buffered + |NhPart(State(), u)| <= sendbuf.Length
      modifies `buffered, `bufferedNh, sendbuf
      ensures buffered <= sendbuf.Length && Contents() == old(Contents()) + NhPart(old(State()), u)
      ensures State() == old(State()).(nh := if u.V4() then Some(u.ipv4) else old(State()).nh)
    {
      hide Update.Valid, V4Mapped, NhPart;
      NhIs(State(), u, Contents());
      if u.V4() && bufferedNh != Some(u.ipv4) {
        StartMessage(NH, 6);
        Accumulate([1]);
        Accumulate([0]);
        Accumulate(u.ipv4);
        bufferedNh := Some(u.ipv4);
      }
    }

    /** The router-id TLV, unless the receiver knows the router-id or can take it from the prefix. */
    method SendRouterId(u: Update) returns (fromPrefix: bool)
      requires u.Valid() && |u.id| == 8 && buffered + |IdPart(State(), u)| <= sendbuf.Length
      modifies `buffered, `bufferedId, sendbuf
      ensures buffered <= sendbuf.Length && Contents() == old(Contents()) + IdPart(old(State()), u)
      ensures fromPrefix == IdFlag(old(State()), u)
      ensures State() == old(State()).(id := Some(u.id))
    {
      hide Update.Valid, V4Mapped, IdPart;
      fromPrefix := false;
      IdIs(State(), u, Contents());
      if bufferedId != Some(u.id) {
        if !u.Specific() && u.RealPlen() == 128 && u.prefix[8..] == u.id {
          fromPrefix := true;
        } else {
          StartMessage(ROUTER_ID, 10);
          Accumulate(Short(0));
          Accumulate(u.id);
        }
        bufferedId := Some(u.id);
      }
    }

    /** A TLV made of its fields, and of three parts of variable length. */
    method SendParts(kind: U8, len: U8, fields: Bytes, p: Bytes, q: Bytes, r: Bytes)
      requires |fields| + |p| + |q| + |r| == len && buffered + len + 2 <= sendbuf.Length
      modifies `buffered, sendbuf
      ensures buffered <= sendbuf.Length && Contents() == old(Contents()) + ([kind, len] + fields + p + q + r)
    {
      PartsJoined(Contents(), [kind, len], fields, p, q, r);
      StartMessage(kind, len);
      Accumulate(fields);
      Accumulate(p);
      Accumulate(q);
      Accumulate(r);
    }

    /** The update TLV. */
    method SendTlv(u: Update, omit: U8, flags: U8, ghost c: Compression)
      requires u.Valid() && omit == Omit(c, u) && flags == Flags(c, u)
      requires buffered + |UpdatePart(c, u)| <= sendbuf.Length
      modifies `buffered, sendbuf
      ensures buffered <= sendbuf.Length && Contents() == old(Contents()) + UpdatePart(c, u)
    {
      hide Update.Valid, Flags, Omit, UpdateHeader, UpdatePart, Length, V4Mapped;
      PartBounds(c, u);
      var pb, spb := Ceil8(u.RealPlen()), Ceil8(u.RealSrcPlen());
      var p := u.RealPrefix()[omit..pb];
      var q := if u.Specific() then u.RealSrcPrefix()[..spb] else [];
      var r := ChannelPart(u);
      var third := if u.Specific() then u.RealSrcPlen() else flags;
      var fields: Bytes := [if u.V4() then 1 else 2, third, u.RealPlen(), omit]
                           + Short(u.interval) + Short(u.seqno) + Short(u.metric);
      var kind := if u.Specific() then UPDATE_SRC_SPECIFIC else UPDATE;
      TlvParts(c, u, kind, fields, p, q, r);
      var len := 10 + |p| + |q| + |r|;
      SendParts(kind, len, fields, p, q, r);
    }

    /** The buffer now ends with `item`. */
    ghost method Remember(item: Item)
      modifies this`pending
      ensures pending == old(pending) + [item] && History() == old(History()) + [item]
    {
      ghost var was := pending;
      pending := pending + [item];
      assert Flatten(batches) + pending == Flatten(batches) + was + [item];
    }

    /** Any other TLV: start_message makes room for it, which may flush. */
    method SendOther(e: Environment, kind: U8, body: Bytes) returns (ghost out: seq<Sent>)
      requires Valid() && Fits(e) && Other(kind, body).Valid() && |body| + 2 <= sendbuf.Length
      modifies this, sendbuf
      ensures Valid() && AllProper(out) && History() == old(History()) + Made(e, out) + [Other(kind, body)]
      ensures if old(sendbuf.Length - buffered) >= |body| + 2 then queue == old(queue) && out == []
              else queue == [] && Flushed(e, old(queue), out)
    {
      hide Encode, After, EncodeAll, AfterAll, Flatten, Flushed, Made, Proper, WrittenFor;
      out := EnsureSpace(e, |body| + 2);
      ghost var before := Contents();
      StartMessage(kind, |body|);
      Accumulate(body);
      Associate(before, [kind, |body|], body);
      AppendItem(FRESH, pending, Other(kind, body));
      Remember(Other(kind, body));
    }

    /** Packets that are lost, among them those that the token bucket holds back, repeated or reordered cost nothing but
        what is in them: whichever arrive, they are understood. */
    lemma UnderstoodAsReceived(rx: Receiver, which: seq<nat>, past: Bytes)
      requires Valid() && |past| >= 4 && forall i :: 0 <= i < |which| ==> which[i] < |sent|
      ensures LearnedFrom(rx, Received(sent, which), past) == MeantAll(rx, Flatten(Received(batches, which)))
    {
      hide ParseBody, EncodeAll, MeantAll;
      HistoryUnderstood(rx, Received(sent, which), Received(batches, which), past);
    }

    /** Once the buffer is flushed, a receiver of the packets has learned exactly what every update handed to
        the interface means, in order. */
    lemma Understood(rx: Receiver, past: Bytes)
      requires Valid() && |past| >= 4
      ensures LearnedFrom(rx, sent + [Contents()], past) == MeantAll(rx, History())
    {
      hide ParseBody, EncodeAll, MeantAll;
      var all := batches + [pending];
      assert all[..|all| - 1] == batches;
      HistoryUnderstood(rx, sent + [Contents()], all, past);
    }

    /** really_send_update, for an update that fits into the buffer by itself. At most one packet is flushed if no
        update is due, as when flushupdates calls it, and before anything of this update is written. */
    method ReallySendUpdate(e: Environment, id: RouterId, p: Pair, seqno: U16, metric: U16, channels: Option<Channels>)
      returns (ghost out: seq<Sent>, ghost w: Option<Update>)
      requires Valid() && Fits(e) && Proper(p) && FitsAlone(Written(e, id, p, seqno, metric, channels))
      modifies this, sendbuf
      ensures Valid() && AllProper(out) && (w.Some? ==> w.value.Valid())
      ensures History() == old(History()) + Made(e, out) + ItemOf(w)
      ensures Says(w, e, id, p, seqno, metric, channels) && w == Written(e, id, p, seqno, metric, channels)
      ensures old(sendbuf.Length - buffered) >= 78 || !e.up || e.filter(id, p) >= INFINITY ==>
                sent == old(sent) && queue == old(queue) && out == []
      ensures queue == [] || queue == old(queue)
      ensures old(queue) == [] ==> out == [] && queue == [] && |sent| <= |old(sent)| + 1
      ensures old(sent) <= sent
      ensures updateBufsize == if queue == old(queue) then old(updateBufsize) else 0
      decreases |queue|, 5
    {
      hide EncodeAll, AfterAll, Flatten, Proper, IsSort, Encode, Flushed, WrittenFor, Says;
      out, w := [], Written(e, id, p, seqno, metric, channels);
      WrittenSays(e, id, p, seqno, metric, channels);
      assert History() + [] + [] == History();
      if !e.up || e.filter(id, p) >= INFINITY {
        return;
      }
      var u := Written(e, id, p, seqno, metric, channels);
      out := EnsureSpace(e, 20 + 12 + 28 + 18);
      if u.None? {
        return;
      }
      EncodeFits(State(), u.value);
      WriteUpdate(u.value);
    }

    /** What follows the reservation of space. */
    method WriteUpdate(u: Update)
      requires Valid() && u.Valid() && buffered + |Encode(State(), u)| <= sendbuf.Length
      modifies `buffered, `bufferedId, `bufferedNh, `bufferedPrefix, `pending, sendbuf
      ensures Valid() && History() == old(History()) + [Upd(u)]
    {
      hide Update.Valid;
      ghost var c := State();
      WriteParts(u);
      AppendItem(FRESH, pending, Upd(u));
      Remember(Upd(u));
    }

    /** The three TLVs, and what is remembered of them. */
    method WriteParts(u: Update)
      requires u.Valid() && buffered + |Encode(State(), u)| <= sendbuf.Length
      modifies `buffered, `bufferedId, `bufferedNh, `bufferedPrefix, sendbuf
      ensures buffered <= sendbuf.Length && Contents() == old(Contents()) + Encode(old(State()), u)
      ensures State() == After(old(State()), u)
    {
      hide Update.Valid, PrefixPart, SourcePart, ChannelPart, NhPart, IdPart, UpdatePart, Encode, PrefixFlag, IdFlag;
      ghost var c := State();
      EncodeIs(c, u, []);
      Unchanged(c, u);
      PartBounds(c, u);
      var omit := 0;
      var prefixFlag := false;
      if !u.V4() {
        if bufferedPrefix.Some? {
          omit := SharedBytes(bufferedPrefix.value, u.prefix, u.plen / 8);
        }
        prefixFlag := !u.Specific() && (bufferedPrefix.None? || u.plen >= 48);
      }
      PrefixFlagIs(c, u, prefixFlag);
      SendNextHop(u);
      var idFlag := SendRouterId(u);
      SendTlv(u, omit, (if prefixFlag then 0x80 else 0) + (if idFlag then 0x40 else 0), c);
      if prefixFlag {
        bufferedPrefix := Some(u.prefix);
      }
      EncodeIs(c, u, old(Contents()));
    }
  }

  /** The router-id and update parts do not depend on the next hop, nor the update part on what it is sent after. */
  lemma Unchanged(c: Compression, u: Update)
    requires u.Valid()
    ensures IdPart(c.(nh := if u.V4() then Some(u.ipv4) else c.nh), u) == IdPart(c, u)
    ensures IdFlag(c.(nh := if u.V4() then Some(u.ipv4) else c.nh), u) == IdFlag(c, u)
  {
  }

  lemma PrefixFlagIs(c: Compression, u: Update, flag: bool)
    requires flag == (!u.V4() && !u.Specific() && (c.prefix.None? || u.plen >= 48))
    ensures flag == PrefixFlag(c, u)
  {
  }

  lemma EncodeIs(c: Compression, u: Update, before: Bytes)
    requires u.Valid()
    ensures before + NhPart(c, u) + IdPart(c, u) + UpdatePart(c, u) == before + Encode(c, u)
  {
    hide NhPart, IdPart, UpdatePart;
    Associate(before, NhPart(c, u), IdPart(c, u));
    Associate(before, NhPart(c, u) + IdPart(c, u), UpdatePart(c, u));
  }

  lemma NhIs(c: Compression, u: Update, before: Bytes)
    requires u.Valid()
    ensures u.V4() && c.nh != Some(u.ipv4) ==>
              |NhPart(c, u)| == 8 && before + [NH, 6] + [1] + [0] + u.ipv4 == before + NhPart(c, u)
    ensures !(u.V4() && c.nh != Some(u.ipv4)) ==> before == before + NhPart(c, u)
  {
  }

  lemma IdIs(c: Compression, u: Update, before: Bytes)
    requires u.Valid()
    ensures c.id != Some(u.id) && !IdFlag(c, u) ==>
              |IdPart(c, u)| == 12 && before + [ROUTER_ID, 10] + Short(0) + u.id == before + IdPart(c, u)
    ensures !(c.id != Some(u.id) && !IdFlag(c, u)) ==> before == before + IdPart(c, u)
  {
  }

  lemma PartsJoined(before: Bytes, h: Bytes, f: Bytes, p: Bytes, q: Bytes, r: Bytes)
    ensures before + h + f + p + q + r == before + (h + f + p + q + r)
  {
    Associate(before, h, f);
    Associate(before, h + f, p);
    Associate(before, h + f + p, q);
    Associate(before, h + f + p + q, r);
  }

  lemma EncodeFits(c: Compression, u: Update)
    requires u.Valid()
    ensures |Encode(c, u)| <= 20 + 12 + 28 + 18
  {
    ReservationSuffices(c, u);
  }

  lemma PartBounds(c: Compression, u: Update)
    requires u.Valid()
    ensures Omit(c, u) <= Ceil8(u.RealPlen()) <= |u.RealPrefix()| && Ceil8(u.RealSrcPlen()) <= |u.RealSrcPrefix()|
    ensures |u.id| == 8 && |u.ipv4| == 4
  {
  }

  lemma TlvParts(c: Compression, u: Update, kind: U8, fields: Bytes, p: Bytes, q: Bytes, r: Bytes)
    requires u.Valid() && p == PrefixPart(c, u) && q == SourcePart(u) && r == ChannelPart(u)
    requires kind == if u.Specific() then UPDATE_SRC_SPECIFIC else UPDATE
    requires fields == [if u.V4() then 1 else 2, if u.Specific() then u.RealSrcPlen() else Flags(c, u), u.RealPlen(),
                        Omit(c, u)]
                       + Short(u.interval) + Short(u.seqno) + Short(u.metric)
    ensures |fields| == 10 && 10 + |p| + |q| + |r| < 0x100
    ensures UpdatePart(c, u) == [kind, 10 + |p| + |q| + |r|] + fields + p + q + r
  {
    hide Flags, Omit, Update.Valid;
    assert [kind, Length(c, u)] + fields == UpdateHeader(c, u);
  }

  lemma {:induction false} SharedUnique(a: Address, b: Address, n: nat, k: nat)
    requires k <= n <= 16 && a[..k] == b[..k] && (k < n ==> a[k] != b[k])
    ensures CommonBytes(a, b, n) == k
  {
  }

  lemma NothingPending(items: seq<Item>)
    ensures EncodeAll(FRESH, items) == [] <==> items == []
  {
  }

  /** A receiver of all packets, and of the buffer once it is flushed, learns exactly what every update ever
      handed to the interface means, in order. */
  lemma {:induction false} HistoryUnderstood(rx: Receiver, packets: seq<Bytes>, batches: seq<seq<Item>>, past: Bytes)
    requires |packets| == |batches| && |past| >= 4
    requires forall i | 0 <= i < |packets| :: packets[i] == EncodeAll(FRESH, batches[i])
    ensures LearnedFrom(rx, packets, past) == MeantAll(rx, Flatten(batches))
    decreases |packets|
  {
    hide ParseBody, EncodeAll, MeantAll;
    var n := |packets|;
    if n == 0 {
      MeantNil(rx);
    } else {
      HistoryUnderstood(rx, packets[..n - 1], batches[..n - 1], past);
      PacketRoundTrip(rx, batches[n - 1], past);
      MeantAppend(rx, Flatten(batches[..n - 1]), batches[n - 1]);
    }
  }

  lemma MeantNil(rx: Receiver)
    ensures MeantAll(rx, []) == []
  {
  }

  lemma {:induction false} MeantAppend(rx: Receiver, a: seq<Item>, b: seq<Item>)
    ensures MeantAll(rx, a + b) == MeantAll(rx, a) + MeantAll(rx, b)
    decreases |a|
  {
    hide *;
    if a == [] {
      MeantNil(rx);
      assert a + b == b;
    } else {
      assert a == [a[0]] + a[1..] && a + b == [a[0]] + (a[1..] + b);
      MeantCons(rx, a[0], a[1..]);
      MeantCons(rx, a[0], a[1..] + b);
      MeantAppend(rx, a[1..], b);
    }
  }

  /** What is still to be learned from position `i` on. */
  ghost function Remaining(rx: Receiver, ps: Parser, memory: Bytes, i: nat, n: nat): seq<Event>
    requires |memory| >= n + 4
  {
    if i < n then ParseBody(rx, ps, memory[i..], n - i) else []
  }

  lemma RemainingPad(rx: Receiver, ps: Parser, memory: Bytes, i: nat, n: nat)
    requires |memory| >= n + 4 && i < n && memory[i] == PAD1
    ensures Remaining(rx, ps, memory, i, n) == Remaining(rx, ps, memory, i + 1, n)
  {
    hide ParseMessage;
    assert memory[i..][0] == PAD1 && memory[i..][1..] == memory[i + 1..];
  }

  lemma RemainingCut(rx: Receiver, ps: Parser, memory: Bytes, i: nat, n: nat)
    requires |memory| >= n + 4 && i < n && memory[i] != PAD1 && i + memory[i + 1] > n
    ensures Remaining(rx, ps, memory, i, n) == []
  {
    hide ParseMessage;
    assert memory[i..][0] == memory[i] && memory[i..][1] == memory[i + 1];
  }

  lemma RemainingMessage(rx: Receiver, ps: Parser, memory: Bytes, i: nat, n: nat, len: nat)
    requires |memory| >= n + 4 && i < n && memory[i] != PAD1 && len == memory[i + 1] && i + len <= n
    ensures Remaining(rx, ps, memory, i, n) ==
              ParseMessage(rx, ps, memory[i..], len).1 +
              Remaining(rx, ParseMessage(rx, ps, memory[i..], len).0, memory, i + len + 2, n)
  {
    hide ParseMessage;
    var m := memory[i..];
    assert m[0] == memory[i] && m[1] == len && m[len + 2..] == memory[i + len + 2..];
  }

  /** parse_packet: the body of a packet of `n` bytes, in a memory that goes on after it. */
  method ParsePacket(rx: Receiver, memory: Bytes, n: nat) returns (events: seq<Event>)
    requires |memory| >= n + 4
    ensures events == ParseBody(rx, START, memory, n)
  {
    hide ParseMessage, ParseBody, Remaining;
    ghost var all := ParseBody(rx, START, memory, n);
    events := [];
    var ps := START;
    var i := 0;
    NothingParsed(rx, memory, n);
    while i < n
      invariant events + Remaining(rx, ps, memory, i, n) == all
      decreases n - i
    {
      var message := memory[i..];
      if message[0] == PAD1 {
        RemainingPad(rx, ps, memory, i, n);
        i := i + 1;
        continue;
      }
      var len := message[1];
      if i + len > n {
        RemainingCut(rx, ps, memory, i, n);
        assert events + [] == events;
        return;
      }
      RemainingMessage(rx, ps, memory, i, n, len);
      var next := ParseMessage(rx, ps, message, len);
      AssociateEvents(events, next.1, Remaining(rx, next.0, memory, i + len + 2, n));
      events, ps := events + next.1, next.0;
      i := i + len + 2;
    }
    NothingRemains(rx, ps, memory, i, n);
    assert events + [] == events;
  }

  lemma NothingParsed(rx: Receiver, memory: Bytes, n: nat)
    requires |memory| >= n + 4
    ensures [] + Remaining(rx, START, memory, 0, n) == ParseBody(rx, START, memory, n)
  {
    assert memory[0..] == memory;
  }

  lemma AssociateEvents(a: seq<Event>, b: seq<Event>, c: seq<Event>)
    ensures (a + b) + c == a + (b + c)
  {
  }

  lemma NothingRemains(rx: Receiver, ps: Parser, memory: Bytes, i: nat, n: nat)
    requires |memory| >= n + 4 && i >= n
    ensures Remaining(rx, ps, memory, i, n) == []
  {
  }
}
