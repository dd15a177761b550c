/**
 Properties of the client that span several steps or relate a step to an
 independent description: the state invariant every step keeps, whole serial
 lines, the command handler's idempotence, and the main loop's gate.
 */
module ClientProperties {
  import opened Options
  import opened CString
  import opened Room
  import opened Client

  /** What holds of every state the client reaches: the array shapes, a room of
      NUL-free bytes, one sequence number per report sent, never both LEDs
      lit, and every report within the 14 bytes of room and card. */
  predicate Inv(s: Client) {
    && WellFormed(s)
    && NoNul(s.room)
    && s.seqId == |s.sent|
    && !(s.green && s.blue)
    && forall i :: 0 <= i < |s.sent| ==> |s.sent[i]| <= ROOM_SIZE + CARD_ID_SIZE
  }

  /** After start-up the invariant holds, and the room is the one of the last
      qualifying address, or six spaces when none qualifies. */
  lemma StartupEstablishesInv(addrs: seq<AddrEntry>, start: nat)
    ensures Inv(Startup(addrs, start))
    ensures NoneQualify(addrs) ==> Startup(addrs, start).room == BlankRoom
    ensures forall i: nat :: IsLastQualifying(addrs, i) ==> Startup(addrs, start).room == RoomOf(addrs[i].lastOctet)
  {
    if NoneQualify(addrs) {
      ScanNoneQualify(addrs, BlankRoom);
    }
    forall i: nat | IsLastQualifying(addrs, i)
      ensures Startup(addrs, start).room == RoomOf(addrs[i].lastOctet)
    {
      ScanLastWins(addrs, BlankRoom, i);
    }
  }

  /** A serial byte keeps the invariant. */
  lemma FeedByteKeepsInv(s: Client, c: Byte)
    requires Inv(s)
    requires c == NEWLINE || s.serialIt < SERIAL_BUF_SIZE
    ensures Inv(FeedByte(s, c))
  {
    if c == NEWLINE && s.serialIt != 0 {
      var r := FeedByte(s, c);
      match Classify(s.rxBuf, s.serialIt)
      case Inserted(id) =>
        assert r.sent == s.sent + [Payload(s.room, id)];
      case Removed =>
        assert r.sent == s.sent + [Payload(s.room, NoCard)];
      case Invalid(_) =>
        assert r == s.(serialIt := 0);
    }
  }

  /** A wake-up of the main loop keeps the invariant. */
  lemma ProcessWakeKeepsInv(s: Client, ev: Event, now: nat, rand: nat)
    requires Inv(s)
    ensures Inv(ProcessWake(s, ev, now, rand))
  {
  }

  /** The one-shot send keeps the invariant. */
  lemma BackoffExpiryKeepsInv(s: Client, now: nat)
    requires Inv(s)
    ensures Inv(BackoffExpiry(s, now))
  {
  }

  /** A terminator after eight buffered bytes other than "00000000": the card
      becomes those bytes (verbatim when they hold no NUL), the LEDs stay, and
      exactly one report, room then card, is sent. */
  lemma TerminatorAfterCard(s: Client)
    requires Inv(s) && s.serialIt == CARD_ID_SIZE
    requires s.rxBuf[..CARD_ID_SIZE] != NoCard
    ensures var r := FeedByte(s, NEWLINE);
      && r.serialIt == 0
      && r.currCard != NoCard
      && (NoNul(s.rxBuf[..CARD_ID_SIZE]) ==> r.currCard == s.rxBuf[..CARD_ID_SIZE])
      && r.green == s.green && r.blue == s.blue
      && r.sent == s.sent + [Payload(s.room, r.currCard)]
      && r.seqId == s.seqId + 1
  {
  }

  /** A terminator after a buffered "00000000": the card becomes "00000000",
      both LEDs go off whatever they were, and exactly one report is sent. */
  lemma TerminatorAfterRemoval(s: Client)
    requires Inv(s) && s.serialIt == CARD_ID_SIZE
    requires s.rxBuf[..CARD_ID_SIZE] == NoCard
    ensures var r := FeedByte(s, NEWLINE);
      && r.serialIt == 0
      && r.currCard == NoCard
      && !r.green && !r.blue
      && r.sent == s.sent + [s.room + NoCard]
      && r.seqId == s.seqId + 1
  {
    assert NoNul(NoCard);
  }

  /** A terminator after a non-empty line of any other length only resets the
      cursor: no card change, no LED change, no report. */
  lemma TerminatorAfterBadLength(s: Client)
    requires WellFormed(s) && s.serialIt != 0 && s.serialIt != CARD_ID_SIZE
    ensures FeedByte(s, NEWLINE) == s.(serialIt := 0)
  {
  }

  /** Bytes of one line, none of them the terminator, fed one by one. */
  function FeedLine(s: Client, line: seq<Byte>): (r: Client)
    requires WellFormed(s) && s.serialIt + |line| <= SERIAL_BUF_SIZE
    requires NEWLINE !in line
    ensures WellFormed(r)
    ensures r.serialIt == s.serialIt + |line|
    ensures r.rxBuf[s.serialIt..r.serialIt] == line
    ensures r.rxBuf[..s.serialIt] == s.rxBuf[..s.serialIt]
    ensures r.rxBuf[r.serialIt..] == s.rxBuf[r.serialIt..]
    ensures r.(rxBuf := s.rxBuf, serialIt := s.serialIt) == s
    decreases |line|
  {
    if |line| == 0 then s
    else
      var s1 := FeedByte(s, line[0]);
      var r := FeedLine(s1, line[1..]);
      assert r.rxBuf[s.serialIt] == s1.rxBuf[s.serialIt] == line[0];
      assert r.rxBuf[s.serialIt..r.serialIt] == [line[0]] + r.rxBuf[s1.serialIt..r.serialIt];
      r
  }

  /** A whole card line from an empty buffer: eight NUL-free bytes and the
      terminator leave the card as those bytes (both LEDs off for
      "00000000") and send exactly one report, the room followed by the card. */
  lemma CardLine(s: Client, line: seq<Byte>)
    requires Inv(s) && s.serialIt == 0
    requires |line| == CARD_ID_SIZE && NoNul(line) && NEWLINE !in line
    ensures var r := FeedByte(FeedLine(s, line), NEWLINE);
      && Inv(r)
      && r.currCard == line
      && r.sent == s.sent + [s.room + line]
      && r.serialIt == 0
      && (line == NoCard ==> !r.green && !r.blue)
      && (line != NoCard ==> r.green == s.green && r.blue == s.blue)
  {
    var m := FeedLine(s, line);
    assert m.rxBuf[..CARD_ID_SIZE] == m.rxBuf[0..CARD_ID_SIZE] == line;
    assert m == s.(rxBuf := m.rxBuf, serialIt := CARD_ID_SIZE);
    assert Inv(m);
    FeedByteKeepsInv(m, NEWLINE);
    var r := FeedByte(m, NEWLINE);
    if line == NoCard {
      TerminatorAfterRemoval(m);
    } else {
      TerminatorAfterCard(m);
      assert Payload(m.room, r.currCard) == s.room + line;
    }
  }

  /** A non-empty line of any length but eight, then the terminator: the state
      is as before the line except for the bytes left in `rx_buf`. */
  lemma BadLine(s: Client, line: seq<Byte>)
    requires Inv(s) && s.serialIt == 0
    requires 0 < |line| <= SERIAL_BUF_SIZE && |line| != CARD_ID_SIZE && NEWLINE !in line
    ensures var r := FeedByte(FeedLine(s, line), NEWLINE);
      && r.(rxBuf := s.rxBuf) == s
      && r.rxBuf[..|line|] == line
  {
  }

  /** The line "12345678" reports the room followed by "12345678". */
  lemma InsertScenario(s: Client)
    requires Inv(s) && s.serialIt == 0
    ensures var r := FeedByte(FeedLine(s, "12345678"), NEWLINE);
      r.currCard == "12345678" && r.sent == s.sent + [s.room + "12345678"]
  {
    var card: seq<Byte> := "12345678";
    assert NoNul(card) && NEWLINE !in card;
    CardLine(s, card);
  }

  /** With a card present, the line "00000000" removes it, turns both LEDs
      off and reports the room followed by "00000000". */
  lemma RemoveScenario(s: Client)
    requires Inv(s) && s.serialIt == 0 && s.currCard != NoCard
    ensures var r := FeedByte(FeedLine(s, NoCard), NEWLINE);
      && r.currCard == NoCard && !r.green && !r.blue
      && r.sent == s.sent + [s.room + NoCard]
  {
    assert NoNul(NoCard) && NEWLINE !in NoCard;
    CardLine(s, NoCard);
  }

  /** Handling the same datagram twice is handling it once. */
  lemma OnDatagramIdempotent(s: Client, data: seq<Byte>)
    ensures OnDatagram(OnDatagram(s, data), data) == OnDatagram(s, data)
  {
  }

  /** A recognised command overrides whatever datagram came before it. */
  lemma {:induction false} OnDatagramLastCommandWins(s: Client, d1: seq<Byte>, d2: seq<Byte>)
    requires FirstByte(d2) in {'1', 'e', '0'}
    ensures OnDatagram(OnDatagram(s, d1), d2) == OnDatagram(s, d2)
  {
  }

  /** "1xyz" lights green only, then "e" blue only, and "q" changes nothing. */
  lemma CommandScenario(s: Client)
    ensures var a := OnDatagram(s, "1xyz");
            var b := OnDatagram(a, "e");
            var c := OnDatagram(b, "q");
      && a.green && !a.blue
      && b.blue && !b.green
      && c == b
  {
  }

  /** When no address qualified at start-up, the room stays six spaces, so
      every later wake-up of the main loop, from any state the serial line or
      earlier wake-ups left, leaves that state as it is. */
  lemma InertWithoutAddress(addrs: seq<AddrEntry>, start: nat, s: Client, ev: Event, now: nat, rand: nat)
    requires NoneQualify(addrs)
    requires WellFormed(s) && s.room == Startup(addrs, start).room
    ensures ProcessWake(s, ev, now, rand) == s
  {
    StartupEstablishesInv(addrs, start);
  }

  /** Once an address qualified, the room is set, and the first periodic
      expiry arms one send at a delay in [0, SEND_INTERVAL). */
  lemma FirstTickArmsSend(addrs: seq<AddrEntry>, start: nat, ev: Event, now: nat, rand: nat)
    requires !NoneQualify(addrs)
    requires now >= start + SEND_INTERVAL
    ensures var r := ProcessWake(Startup(addrs, start), ev, now, rand);
      && r.periodicAt == start + 2 * SEND_INTERVAL
      && r.backoffAt == Some(now + rand % SEND_INTERVAL)
      && now <= r.backoffAt.value < now + SEND_INTERVAL
  {
    ScanSetsRoomIff(addrs);
  }

  /** The report of any reachable state with a NUL-free card is the six room
      bytes then the eight card bytes: 14 bytes, below `MAX_PAYLOAD_LEN`. */
  lemma ReportShape(s: Client)
    requires Inv(s) && NoNul(s.currCard)
    ensures Payload(s.room, s.currCard) == s.room + s.currCard
    ensures |Payload(s.room, s.currCard)| == 14 < MAX_PAYLOAD_LEN
  {
  }
}
