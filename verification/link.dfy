/** The state of one `HM10` driver object and its interrupt-side operations:
    the receive-complete handler (framing, then dispatch), the
    transmit-complete handler, the connection classifier, the observer
    setters and the liveness probe. Callbacks are modelled as observer
    identities, and each invocation appends an event to the link's log. */
module Link {
  import opened Bytes
  import Framer
  import Responses
  import Config

  type ObserverId = nat

  /** One callback invocation, with the arguments it received. A data
      callback receives a pointer into the message buffer and a length: `view`
      is the buffer from that pointer to its end. */
  datatype Event =
    | DataReceived(observer: ObserverId, view: seq<Byte>, len: nat)
    | DeviceConnected(observer: ObserverId, mac: seq<Byte>)
    | DeviceDisconnected(observer: ObserverId)

  datatype Link = Link(
    ring: seq<Byte>,        // m_rxbuffer, filled by the DMA engine
    read: nat,              // m_rx_buff_start_ptr, as an index into the ring
    msg: seq<Byte>,         // m_message_buff
    msgLen: nat,            // m_message_datalen
    rxBusy: bool,           // m_rx_in_progress
    txBusy: bool,           // m_tx_in_progress
    rfMode: bool,           // m_rf_comm_mode
    connected: bool,        // m_is_connected
    mac: seq<Byte>,         // m_connected_mac.mac_address
    onData: Option<ObserverId>,
    onConnect: Option<ObserverId>,
    onDisconnect: Option<ObserverId>,
    events: seq<Event>)

  /** The shape every reachable state has: a non-empty ring, the read cursor
      inside it, a message buffer with room for a whole ring plus terminator,
      the stored frame terminated, and a 15-character MAC field. */
  predicate Valid(l: Link) {
    && 0 < |l.ring|
    && l.read <= |l.ring|
    && |l.ring| < |l.msg|
    && l.msgLen < |l.msg|
    && l.msg[l.msgLen] == Nul
    && |l.mac| == Config.FieldLen
  }

  /** The most recently assembled frame, without its terminator. */
  function Frame(l: Link): seq<Byte>
    requires Valid(l)
  {
    l.msg[..l.msgLen]
  }

  /** `is_busy` (hm10.cpp:231-234): a receive or a transmit is in progress. */
  predicate IsBusy(l: Link) {
    l.rxBusy || l.txBusy
  }

  const ConnNotice: CStr := Ascii("OK+CONN")
  const LostNotice: CStr := Ascii("OK+LOST")
  const OkReply: CStr := Ascii("OK")

  /** The MAC field after `memset` to NUL. */
  function ClearedMac(): (m: seq<Byte>)
    ensures |m| == Config.FieldLen && forall i :: 0 <= i < |m| ==> m[i] == Nul
  {
    seq(Config.FieldLen, _ => Nul)
  }

  /** Where the MAC address starts in a connection notice. */
  const MacOffset: nat := 8

  /** A frame the classifier consumes. */
  predicate IsNotice(frame: seq<Byte>) {
    IsPrefix(ConnNotice, frame) || IsPrefix(LostNotice, frame)
  }

  /** The two notices differ in their fourth character, so no frame is both. */
  lemma NoticesExclusive(frame: seq<Byte>)
    ensures IsPrefix(ConnNotice, frame) ==> !IsPrefix(LostNotice, frame)
  {
    if IsPrefix(ConnNotice, frame) {
      assert frame[3] == ConnNotice[3] != LostNotice[3];
    }
  }

  /** Comparing against the terminated buffer is a prefix test on the frame. */
  lemma {:induction false} CompareIsFramePrefix(l: Link, p: CStr)
    requires Valid(l)
    ensures Nul in l.msg
    ensures Responses.CompareWithResp(l.msg, p) <==> IsPrefix(p, Frame(l))
  {
    assert l.msg[l.msgLen] == Nul;
    if IsPrefix(p, l.msg) {
      assert forall i :: 0 <= i < |p| ==> l.msg[i] == p[i] != Nul;
      assert |p| <= l.msgLen;
      assert l.msg[..l.msgLen][..|p|] == l.msg[..|p|];
    }
    if IsPrefix(p, Frame(l)) {
      assert l.msg[..l.msgLen][..|p|] == l.msg[..|p|];
    }
  }

  function SetDataCallback(l: Link, observer: Option<ObserverId>): (r: Link)
    ensures r.onData == observer && r.(onData := l.onData) == l
  {
    l.(onData := observer)
  }

  function SetDeviceConnCallback(l: Link, observer: Option<ObserverId>): (r: Link)
    ensures r.onConnect == observer && r.(onConnect := l.onConnect) == l
  {
    l.(onConnect := observer)
  }

  function SetDeviceDisconnCallback(l: Link, observer: Option<ObserverId>): (r: Link)
    ensures r.onDisconnect == observer && r.(onDisconnect := l.onDisconnect) == l
  {
    l.(onDisconnect := observer)
  }

  function SetRfCommMode(l: Link, enabled: bool): (r: Link)
    ensures r.rfMode == enabled && r.(rfMode := l.rfMode) == l
  {
    l.(rfMode := enabled)
  }

  /** The transmit-complete interrupt: only the transmit flag drops. */
  function TxCompleted(l: Link): (r: Link)
    ensures !r.txBusy && r.(txBusy := l.txBusy) == l
    ensures IsBusy(r) <==> l.rxBusy
  {
    l.(txBusy := false)
  }

  /** Busy lasts exactly as long as a transfer: once both completion
      interrupts have run, in either order, the link is idle. */
  lemma IdleAfterBothCompletions(l: Link, frame: seq<Byte>)
    requires Valid(l) && |frame| < |l.msg|
    ensures !IsBusy(TxCompleted(Deliver(l, frame)))
    ensures !IsBusy(Deliver(TxCompleted(l), frame))
  {
  }

  /** The result of the classifier: whether it consumed the frame, and the link after it. */
  datatype Classified = Classified(consumed: bool, link: Link)

  /** `handle_conn_message` (hm10.cpp:170-215): a two-state connection
      machine driven by the "OK+CONN" and "OK+LOST" prefixes of the frame.
      The MAC is taken with the bounded copy (see `Responses.CopyStrBounded`). */
  function HandleConnMessage(l: Link): (c: Classified)
    requires Valid(l)
    ensures Valid(c.link)
    ensures c.consumed <==> IsNotice(Frame(l))
    ensures c.link.(connected := l.connected, mac := l.mac, events := l.events) == l
    ensures IsPrefix(ConnNotice, Frame(l)) ==>
      && c.link.connected
      && c.link.mac == Responses.CopyStrBounded(l.msg, l.msgLen, MacOffset, l.mac)
      && c.link.events == l.events + (if l.onConnect.Some? then [DeviceConnected(l.onConnect.value, c.link.mac)] else [])
    ensures IsPrefix(LostNotice, Frame(l)) ==>
      && !c.link.connected
      && c.link.mac == ClearedMac()
      && c.link.events == l.events + (if l.onDisconnect.Some? then [DeviceDisconnected(l.onDisconnect.value)] else [])
    ensures !c.consumed ==> c.link == l
  {
    CompareIsFramePrefix(l, ConnNotice);
    CompareIsFramePrefix(l, LostNotice);
    NoticesExclusive(Frame(l));
    if Responses.CompareWithResp(l.msg, ConnNotice) then
      var mac := Responses.CopyStrBounded(l.msg, l.msgLen, MacOffset, l.mac);
      var events := l.events + (if l.onConnect.Some? then [DeviceConnected(l.onConnect.value, mac)] else []);
      Classified(true, l.(connected := true, mac := mac, events := events))
    else if Responses.CompareWithResp(l.msg, LostNotice) then
      var events := l.events + (if l.onDisconnect.Some? then [DeviceDisconnected(l.onDisconnect.value)] else []);
      Classified(true, l.(connected := false, mac := ClearedMac(), events := events))
    else
      Classified(false, l)
  }

  /** Wherever the source's copy stays inside both buffers and the MAC offset
      lies inside the frame, the classifier stores exactly the MAC that
      `copystr_from_resp(8, mac)` writes. */
  lemma ConnMacAgreesWithSource(l: Link)
    requires Valid(l) && IsPrefix(ConnNotice, Frame(l)) && MacOffset <= l.msgLen
    requires Responses.CopyStrFromResp(l.msg, MacOffset, l.mac).Ok?
    ensures HandleConnMessage(l).link.mac == Responses.CopyStrFromResp(l.msg, MacOffset, l.mac).value
  {
    Responses.BoundedAgreesWithAsWritten(l.msg, l.msgLen, MacOffset, l.mac);
  }

  /** A 12-character MAC address at offset 8, ended by a delimiter, fits the
      15-character field: `copystr_from_resp(8, mac)` stays inside both
      buffers and puts the address in the field's first 12 characters. */
  lemma MacFitsField(msg: seq<Byte>, dst: seq<Byte>)
    requires |dst| == Config.FieldLen && MacOffset + Config.MacHexLen < |msg|
    requires forall k :: MacOffset <= k < MacOffset + Config.MacHexLen ==> !IsDelimiter(msg[k])
    requires IsDelimiter(msg[MacOffset + Config.MacHexLen])
    ensures Responses.CopyStrFromResp(msg, MacOffset, dst).Ok?
    ensures var mac := Responses.CopyStrFromResp(msg, MacOffset, dst).value;
      mac[..Config.MacHexLen] == msg[MacOffset..MacOffset + Config.MacHexLen]
      && mac[Config.MacHexLen..] == dst[Config.MacHexLen..]
  {
    assert Responses.FirstDelimiter(msg, MacOffset) == Some(MacOffset + Config.MacHexLen);
  }

  /** An "OK+CONN" notice that carries a 12-character MAC address connects
      the link and stores that address in the MAC field. */
  lemma ConnNoticeStoresMac(l: Link)
    requires Valid(l) && IsPrefix(ConnNotice, Frame(l)) && MacOffset + Config.MacHexLen <= l.msgLen
    requires forall k :: MacOffset <= k < MacOffset + Config.MacHexLen ==> !IsDelimiter(l.msg[k])
    requires IsDelimiter(l.msg[MacOffset + Config.MacHexLen])
    ensures HandleConnMessage(l).link.connected
    ensures HandleConnMessage(l).link.mac[..Config.MacHexLen] == l.msg[MacOffset..MacOffset + Config.MacHexLen]
  {
    MacFitsField(l.msg, l.mac);
    ConnMacAgreesWithSource(l);
  }

  /** A frame that completes while a receive is pending reaches neither the
      classifier nor any callback. */
  lemma PendingReceiveNotifiesNobody(l: Link, frame: seq<Byte>)
    requires Valid(l) && l.rxBusy && |frame| < |l.msg|
    ensures Deliver(l, frame).events == l.events
    ensures Deliver(l, frame).connected == l.connected && Deliver(l, frame).mac == l.mac
  {
    var stored := l.(msg := Framer.Framed(l.msg, frame), msgLen := |frame|);
    assert Frame(stored) == frame;
    assert Deliver(l, frame) == Dispatch(stored);
  }

  /** What the data callback is handed: in RF-comm mode the first byte is a
      length prefix and delivery starts after it; otherwise the whole buffer
      with the stored frame length. */
  function DataEvent(l: Link, observer: ObserverId): (e: Event)
    requires Valid(l)
    ensures e.DataReceived? && e.observer == observer
    ensures !l.rfMode ==> e.len == l.msgLen < |e.view| && e.view[..e.len] == Frame(l)
    ensures l.rfMode ==> e.len == l.msg[0] && e.view == l.msg[1..]
  {
    if l.rfMode then DataReceived(observer, l.msg[1..], l.msg[0])
    else DataReceived(observer, l.msg, l.msgLen)
  }

  /** Lines 101-117 of `rx_compltd`, after the frame is stored. A receive
      pending on entry keeps both the classifier and the data callback out
      (the `&&` short-circuits); otherwise the data callback fires once,
      only for a frame the classifier left alone and only when registered.
      The receive flag is cleared last, in every case. */
  function Dispatch(l: Link): (r: Link)
    requires Valid(l)
    ensures Valid(r) && !r.rxBusy
    ensures r.ring == l.ring && r.read == l.read && r.msg == l.msg && r.msgLen == l.msgLen
    ensures r.txBusy == l.txBusy && r.rfMode == l.rfMode
    ensures r.onData == l.onData && r.onConnect == l.onConnect && r.onDisconnect == l.onDisconnect
    ensures |l.events| <= |r.events| <= |l.events| + 1 && r.events[..|l.events|] == l.events
    ensures l.rxBusy ==> r == l.(rxBusy := false)
    ensures !l.rxBusy && IsNotice(Frame(l)) ==> r == HandleConnMessage(l).link.(rxBusy := false)
    ensures !l.rxBusy && !IsNotice(Frame(l)) ==>
      r == l.(rxBusy := false, events := l.events + (if l.onData.Some? then [DataEvent(l, l.onData.value)] else []))
  {
    var l' :=
      if l.rxBusy then l
      else
        var c := HandleConnMessage(l);
        if c.consumed || l.onData.None? then c.link
        else l.(events := l.events + [DataEvent(l, l.onData.value)]);
    l'.(rxBusy := false)
  }

  /** The frame `frame` stored in the message buffer, then dispatched. */
  function Deliver(l: Link, frame: seq<Byte>): (r: Link)
    requires Valid(l) && |frame| < |l.msg|
    ensures Valid(r) && !r.rxBusy && Frame(r) == frame
    ensures |r.msg| == |l.msg| && r.ring == l.ring && r.read == l.read
    ensures r.onData == l.onData && r.onConnect == l.onConnect && r.onDisconnect == l.onDisconnect
  {
    var stored := l.(msg := Framer.Framed(l.msg, frame), msgLen := |frame|);
    assert Frame(stored) == frame;
    Dispatch(stored)
  }

  /** `rx_compltd` (hm10.cpp:55-118) on the idle-line interrupt, with the DMA
      engine's bytes-remaining counter as input: the frame since the read
      cursor is copied out and terminated, the read cursor moves to the write
      index, and the frame is dispatched. */
  method RxCompleted(l: Link, remaining: nat) returns (r: Link)
    requires Valid(l) && remaining <= |l.ring|
    ensures Valid(r) && !r.rxBusy && r.txBusy == l.txBusy
    ensures IsBusy(r) <==> l.txBusy
    ensures r.ring == l.ring && r.read == |l.ring| - remaining
    ensures Frame(r) == Framer.Extract(l.ring, l.read, |l.ring| - remaining)
    ensures r == Deliver(l.(read := |l.ring| - remaining), Framer.Extract(l.ring, l.read, |l.ring| - remaining))
  {
    var write := Framer.WriteIndex(|l.ring|, remaining);
    var out, len := Framer.CopyFrame(l.ring, l.read, write, l.msg);
    var stored := l.(msg := out, msgLen := len, read := write);
    r := Dispatch(stored);
    ghost var frame := Framer.Extract(l.ring, l.read, write);
    ghost var moved := l.(read := write);
    assert stored == moved.(msg := Framer.Framed(moved.msg, frame), msgLen := |frame|);
    assert r == Deliver(moved, frame);
  }

  /** `is_alive` (hm10.cpp:248-257): send `AliveCommand` ("AT") with reply
      timeout `AliveTimeout` and accept an "OK" reply. `exchanged` is what the
      transaction `tx_and_rx(AliveTimeout)` reported, and `l` is the link that
      transaction left behind. */
  function IsAlive(exchanged: bool, l: Link): (alive: bool)
    requires Valid(l)
    ensures alive <==> exchanged && IsPrefix(OkReply, Frame(l))
  {
    CompareIsFramePrefix(l, OkReply);
    exchanged && Responses.CompareWithResp(l.msg, OkReply)
  }

  /** The command `is_alive` sends, and its reply timeout. */
  const AliveCommand: seq<Byte> := Ascii("AT")
  const AliveTimeout: nat := 100

  /** Frames delivered one after another by successive receive interrupts. */
  function DeliverAll(l: Link, frames: seq<seq<Byte>>): (r: Link)
    requires Valid(l)
    requires forall i :: 0 <= i < |frames| ==> |frames[i]| < |l.msg|
    ensures Valid(r) && |r.msg| == |l.msg|
    decreases |frames|
  {
    if frames == [] then l else DeliverAll(Deliver(l, frames[0]), frames[1..])
  }

  /** The connection state the notices among `frames` leave behind, starting from `connected`. */
  function AfterNotices(frames: seq<seq<Byte>>, connected: bool): bool
    decreases |frames|
  {
    if frames == [] then connected
    else if IsPrefix(ConnNotice, frames[0]) then AfterNotices(frames[1..], true)
    else if IsPrefix(LostNotice, frames[0]) then AfterNotices(frames[1..], false)
    else AfterNotices(frames[1..], connected)
  }

  /** With no receive pending, the connection flag follows the last notice. */
  lemma {:induction false} ConnectionFollowsNotices(l: Link, frames: seq<seq<Byte>>)
    requires Valid(l) && !l.rxBusy
    requires forall i :: 0 <= i < |frames| ==> |frames[i]| < |l.msg|
    ensures DeliverAll(l, frames).connected == AfterNotices(frames, l.connected)
    decreases |frames|
  {
    if frames != [] {
      var l' := Deliver(l, frames[0]);
      NoticesExclusive(frames[0]);
      ConnectionFollowsNotices(l', frames[1..]);
    }
  }

  function CountConnected(events: seq<Event>): nat {
    if events == [] then 0
    else CountConnected(events[..|events| - 1]) + (if events[|events| - 1].DeviceConnected? then 1 else 0)
  }

  function CountConnNotices(frames: seq<seq<Byte>>): nat {
    if frames == [] then 0
    else (if IsPrefix(ConnNotice, frames[0]) then 1 else 0) + CountConnNotices(frames[1..])
  }

  lemma CountConnectedAppend(events: seq<Event>, e: Event)
    ensures CountConnected(events + [e]) == CountConnected(events) + (if e.DeviceConnected? then 1 else 0)
  {
    assert (events + [e])[..|events|] == events;
  }

  /** One delivered frame adds a connected notification exactly when it is an
      "OK+CONN" notice and an observer is registered. */
  lemma DeliverCountsConnected(l: Link, frame: seq<Byte>)
    requires Valid(l) && !l.rxBusy && l.onConnect.Some? && |frame| < |l.msg|
    ensures CountConnected(Deliver(l, frame).events)
      == CountConnected(l.events) + (if IsPrefix(ConnNotice, frame) then 1 else 0)
  {
    var stored := l.(msg := Framer.Framed(l.msg, frame), msgLen := |frame|);
    assert Frame(stored) == frame;
    var r := Deliver(l, frame);
    assert r == Dispatch(stored);
    NoticesExclusive(frame);
    if IsPrefix(ConnNotice, frame) {
      CountConnectedAppend(l.events, DeviceConnected(l.onConnect.value, r.mac));
    } else if IsPrefix(LostNotice, frame) {
      assert r.events == l.events + (if l.onDisconnect.Some? then [DeviceDisconnected(l.onDisconnect.value)] else []);
      if l.onDisconnect.Some? {
        CountConnectedAppend(l.events, DeviceDisconnected(l.onDisconnect.value));
      } else {
        assert r.events == l.events;
      }
    } else {
      assert r.events == l.events + (if l.onData.Some? then [DataEvent(stored, l.onData.value)] else []);
      if l.onData.Some? {
        CountConnectedAppend(l.events, DataEvent(stored, l.onData.value));
      } else {
        assert r.events == l.events;
      }
    }
  }

  /** With a connected observer registered and no receive pending, it is
      notified exactly once per "OK+CONN" frame. */
  lemma {:induction false} ConnectedObserverOncePerNotice(l: Link, frames: seq<seq<Byte>>)
    requires Valid(l) && !l.rxBusy && l.onConnect.Some?
    requires forall i :: 0 <= i < |frames| ==> |frames[i]| < |l.msg|
    ensures CountConnected(DeliverAll(l, frames).events) == CountConnected(l.events) + CountConnNotices(frames)
    decreases |frames|
  {
    if frames != [] {
      var l' := Deliver(l, frames[0]);
      var rest := frames[1..];
      assert forall i :: 0 <= i < |rest| ==> |rest[i]| < |l'.msg|;
      assert DeliverAll(l, frames) == DeliverAll(l', rest);
      ConnectedObserverOncePerNotice(l', rest);
      DeliverCountsConnected(l, frames[0]);
      assert CountConnNotices(frames) == (if IsPrefix(ConnNotice, frames[0]) then 1 else 0) + CountConnNotices(rest);
    }
  }

  /** Registration replaces silently: a plain data frame goes to the observer
      registered last, whatever was registered before. */
  lemma LatestDataObserverNotified(l: Link, first: ObserverId, second: ObserverId, frame: seq<Byte>)
    requires Valid(l) && !l.rxBusy && |frame| < |l.msg| && !IsNotice(frame)
    ensures var r := Deliver(SetDataCallback(SetDataCallback(l, Some(first)), Some(second)), frame);
      r.events == l.events + [r.events[|l.events|]] && r.events[|l.events|].observer == second
  {
  }

  /** Plain mode hands the callback exactly the frame; RF-comm mode hands it
      the bytes after the length prefix, as many as the prefix says. */
  lemma DataCallbackSeesFrame(l: Link)
    requires Valid(l) && !l.rxBusy && l.onData.Some? && !IsNotice(Frame(l))
    ensures var e := Dispatch(l).events[|l.events|];
      && (!l.rfMode ==> e.view[..e.len] == Frame(l))
      && (l.rfMode && 0 < l.msgLen && l.msg[0] < l.msgLen ==>
            e.len == Frame(l)[0] && e.view[..e.len] == Frame(l)[1..1 + e.len])
  {
    var e := DataEvent(l, l.onData.value);
    assert Dispatch(l).events == l.events + [e];
    assert Dispatch(l).events[|l.events|] == e;
    if l.rfMode && 0 < l.msgLen && l.msg[0] < l.msgLen {
      assert e.view[..e.len] == l.msg[1..1 + e.len] == Frame(l)[1..1 + e.len];
    }
  }
}
