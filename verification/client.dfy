/**
 The sensor client's state and its step functions: the serial line assembler
 (`uart_rx_callback`), the report builder (`send_packet`), the command handler
 (`tcpip_handler`) and the body of the process's main loop, with its periodic
 timer and its jittered one-shot send.
 */
module Client {
  import opened Options
  import opened CString
  import opened Room

  const SERIAL_BUF_SIZE: nat := 128
  const CARD_ID_SIZE: nat := 8
  const MAX_PAYLOAD_LEN: nat := 30
  /** Report period in seconds. */
  const PERIOD: nat := 60
  /** Clock ticks per second; a platform constant, fixed here. */
  const CLOCK_SECOND: nat := 128
  /** Report period in clock ticks. */
  const SEND_INTERVAL: nat := PERIOD * CLOCK_SECOND

  /** The serial line terminator, byte 10. */
  const NEWLINE: Byte := '\n'

  /** The card identifier that means "no card present". */
  const NoCard: seq<Byte> := "00000000"

  /** What a datagram-arrival or other wake-up of the process carries. */
  datatype Event =
    | TcpipEvent(newData: Option<seq<Byte>>)  // `None`: no new application data
    | OtherEvent

  /** The client's global and static state.
      `sent` stands for the datagrams handed to the transport, in order;
      `periodicAt` is the periodic timer's expiry and `backoffAt` the pending
      one-shot send, both in clock ticks. */
  datatype Client = Client(
    rxBuf: seq<Byte>,
    serialIt: nat,
    currCard: seq<Byte>,
    room: seq<Byte>,
    green: bool,
    blue: bool,
    seqId: nat,
    sent: seq<seq<Byte>>,
    periodicAt: nat,
    backoffAt: Option<nat>)

  /** The fixed sizes of the C arrays and the cursor's range within `rx_buf`. */
  predicate WellFormed(s: Client) {
    && |s.rxBuf| == SERIAL_BUF_SIZE
    && s.serialIt <= SERIAL_BUF_SIZE
    && |s.currCard| == CARD_ID_SIZE
    && |s.room| == ROOM_SIZE
  }

  /** The state the process reaches before its main loop: card "00000000",
      the room from the address scan, LEDs off, no report sent yet, and the
      periodic timer set one interval after `start`. */
  function Startup(addrs: seq<AddrEntry>, start: nat): (s: Client)
    ensures WellFormed(s) && s.serialIt == 0
    ensures s.currCard == NoCard && !s.green && !s.blue
    ensures s.sent == [] && s.seqId == 0
    ensures s.periodicAt == start + SEND_INTERVAL && s.backoffAt == None
  {
    Client(Zeros(SERIAL_BUF_SIZE), 0, NoCard, ScanAddresses(addrs, BlankRoom),
           false, false, 0, [], start + SEND_INTERVAL, None)
  }

  /** The gate of the main loop, `strncmp(room, "      ", ROOM_SIZE)`: the
      room differs from six spaces. */
  function RoomIsSet(room: seq<Byte>): (r: bool)
    requires |room| == ROOM_SIZE
    ensures r <==> room != BlankRoom
  {
    StrNCmpAgainstLiteral(room, BlankRoom, ROOM_SIZE);
    !StrNCmpEq(room, BlankRoom, ROOM_SIZE)
  }

  /** The datagram `send_packet` builds: the room, then the card, each up to
      its NUL, joined by `strcat` into a 15-byte buffer. */
  function Payload(room: seq<Byte>, card: seq<Byte>): (p: seq<Byte>)
    requires |room| == ROOM_SIZE && |card| == CARD_ID_SIZE
    ensures |p| <= ROOM_SIZE + CARD_ID_SIZE < MAX_PAYLOAD_LEN
    ensures NoNul(room) && NoNul(card) ==> p == room + card && |p| == ROOM_SIZE + CARD_ID_SIZE
  {
    StrCat(room, card)
  }

  /** `send_packet`: one more report, carrying the current room and card. */
  function SendPacket(s: Client): (r: Client)
    requires WellFormed(s)
    ensures WellFormed(r)
    ensures r.seqId == s.seqId + 1
    ensures |r.sent| == |s.sent| + 1 && r.sent[..|s.sent|] == s.sent
    ensures r.sent[|s.sent|] == Payload(s.room, s.currCard)
    ensures r.(seqId := s.seqId, sent := s.sent) == s
  {
    var r := s.(seqId := s.seqId + 1, sent := s.sent + [Payload(s.room, s.currCard)]);
    assert r.sent[..|s.sent|] == s.sent;
    r
  }

  /** How a completed serial line is read. */
  datatype LineClass =
    | Inserted(id: seq<Byte>)
    | Removed
    | Invalid(length: nat)

  /** Classifies the `it` buffered bytes of `buf` when a terminator arrives:
      eight bytes other than "00000000" are a card, "00000000" is its removal,
      any other length is rejected. */
  function Classify(buf: seq<Byte>, it: nat): (c: LineClass)
    requires |buf| == SERIAL_BUF_SIZE && it <= SERIAL_BUF_SIZE
    ensures c.Invalid? <==> it != CARD_ID_SIZE
    ensures c.Invalid? ==> c.length == it
    ensures c.Removed? <==> it == CARD_ID_SIZE && buf[..CARD_ID_SIZE] == NoCard
    ensures c.Inserted? ==> |c.id| == CARD_ID_SIZE && c.id != NoCard
    ensures c.Inserted? ==> CStr(c.id) == CStr(buf[..CARD_ID_SIZE])
    ensures c.Inserted? && NoNul(buf[..CARD_ID_SIZE]) ==> c.id == buf[..CARD_ID_SIZE]
  {
    if it == CARD_ID_SIZE then
      StrNCmpAgainstLiteral(buf, NoCard, CARD_ID_SIZE);
      if !StrNCmpEq(buf, NoCard, CARD_ID_SIZE) then
        Inserted(StrNCpy(buf, CARD_ID_SIZE))
      else Removed
    else Invalid(it)
  }

  /** `uart_rx_callback`: one byte from the serial line. A terminator on a
      non-empty buffer completes the line and resets the cursor; a terminator
      on an empty buffer does nothing; any other byte is stored at the cursor.
      The source does not bound the cursor, so the caller must keep it inside
      `rx_buf`. */
  function FeedByte(s: Client, c: Byte): (r: Client)
    requires WellFormed(s)
    requires c == NEWLINE || s.serialIt < SERIAL_BUF_SIZE
    ensures WellFormed(r)
    ensures r.room == s.room && r.periodicAt == s.periodicAt && r.backoffAt == s.backoffAt
    ensures c == NEWLINE && s.serialIt != 0 ==> r.serialIt == 0
    ensures c == NEWLINE && s.serialIt == 0 ==> r == s
    ensures c != NEWLINE ==> r.serialIt == s.serialIt + 1 && r.rxBuf[s.serialIt] == c
    ensures c != NEWLINE ==> forall i :: 0 <= i < SERIAL_BUF_SIZE && i != s.serialIt ==> r.rxBuf[i] == s.rxBuf[i]
    ensures c != NEWLINE ==> r.(rxBuf := s.rxBuf, serialIt := s.serialIt) == s
  {
    if c == NEWLINE && s.serialIt != 0 then
      match Classify(s.rxBuf, s.serialIt)
      case Inserted(id) => SendPacket(s.(currCard := id)).(serialIt := 0)
      case Removed => SendPacket(s.(currCard := NoCard, green := false, blue := false)).(serialIt := 0)
      case Invalid(_) => s.(serialIt := 0)
    else if c != NEWLINE then
      s.(rxBuf := s.rxBuf[s.serialIt := c], serialIt := s.serialIt + 1)
    else
      s
  }

  /** The byte `tcpip_handler` inspects: byte 0 of the datagram once a NUL
      has been written after its data. */
  function FirstByte(data: seq<Byte>): (b: Byte)
    ensures b == (data + [NUL])[0]
  {
    if |data| == 0 then NUL else data[0]
  }

  /** `tcpip_handler` on a datagram with new data: '1' lights green only, 'e'
      blue only, '0' neither; anything else leaves the LEDs alone. */
  function OnDatagram(s: Client, data: seq<Byte>): (r: Client)
    ensures FirstByte(data) == '1' ==> r.green && !r.blue
    ensures FirstByte(data) == 'e' ==> r.blue && !r.green
    ensures FirstByte(data) == '0' ==> !r.green && !r.blue
    ensures FirstByte(data) !in {'1', 'e', '0'} ==> r == s
    ensures r.(green := s.green, blue := s.blue) == s
  {
    var b := FirstByte(data);
    if b == '1' then s.(green := true, blue := false)
    else if b == 'e' then s.(green := false, blue := true)
    else if b == '0' then s.(green := false, blue := false)
    else s
  }

  /** One pass of the main loop after `PROCESS_YIELD` at clock `now`, with
      `rand` the value `random_rand()` returns. Nothing happens while the room
      is six spaces. Otherwise an event with new data goes to the command
      handler, and an expired periodic timer is re-armed one interval after
      its previous expiry and arms the one-shot send `rand % SEND_INTERVAL`
      ticks from now. */
  function ProcessWake(s: Client, ev: Event, now: nat, rand: nat): (r: Client)
    requires WellFormed(s)
    ensures WellFormed(r)
    ensures !RoomIsSet(s.room) ==> r == s
    ensures RoomIsSet(s.room) && now >= s.periodicAt ==>
              && r.periodicAt == s.periodicAt + SEND_INTERVAL
              && r.backoffAt.Some? && now <= r.backoffAt.value < now + SEND_INTERVAL
    ensures RoomIsSet(s.room) && now >= s.periodicAt ==> r.backoffAt == Some(now + rand % SEND_INTERVAL)
    ensures now < s.periodicAt ==> r.periodicAt == s.periodicAt && r.backoffAt == s.backoffAt
    ensures RoomIsSet(s.room) && ev.TcpipEvent? && ev.newData.Some? ==>
              r.green == OnDatagram(s, ev.newData.value).green && r.blue == OnDatagram(s, ev.newData.value).blue
    ensures !(ev.TcpipEvent? && ev.newData.Some?) ==> r.green == s.green && r.blue == s.blue
    ensures r.(green := s.green, blue := s.blue, periodicAt := s.periodicAt, backoffAt := s.backoffAt) == s
  {
    if !RoomIsSet(s.room) then s
    else
      var s1 := if ev.TcpipEvent? && ev.newData.Some? then OnDatagram(s, ev.newData.value) else s;
      if now >= s1.periodicAt then
        s1.(periodicAt := s1.periodicAt + SEND_INTERVAL, backoffAt := Some(now + rand % SEND_INTERVAL))
      else s1
  }

  /** The one-shot timer's callback at clock `now`: once its delay has passed
      it sends one report and is inert until armed again. */
  function BackoffExpiry(s: Client, now: nat): (r: Client)
    requires WellFormed(s)
    ensures WellFormed(r)
    ensures s.backoffAt.Some? && now >= s.backoffAt.value ==>
              && r.sent == s.sent + [Payload(s.room, s.currCard)]
              && r.seqId == s.seqId + 1
              && r.backoffAt == None
              && r.(sent := s.sent, seqId := s.seqId, backoffAt := s.backoffAt) == s
    ensures !(s.backoffAt.Some? && now >= s.backoffAt.value) ==> r == s
    ensures r.room == s.room && r.currCard == s.currCard && r.green == s.green && r.blue == s.blue
  {
    if s.backoffAt.Some? && now >= s.backoffAt.value then SendPacket(s).(backoffAt := None)
    else s
  }
}
