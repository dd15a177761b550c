# Sensor client model

A Dafny model of the client side of a classroom card-reader node (`sensorsClient.c`, a Contiki process). The node does four things:

- It reads card-presence lines from a serial port.
- It derives a six-character room identifier from the last octet of its network address.
- It reports `room ++ card` to a collector. A report goes out at once on every card insertion or removal. Another goes out once per period, after a random delay.
- It turns a green and a blue LED on or off according to single-byte commands it receives.

The model is functional: one immutable `Client.Client` record holds the C globals and statics. These are `rx_buf`, `serialIt`, `currCard`, `room`, the two LEDs, `seq_id`, the reports handed to the transport, and the two timers. Every entry point of the C code is a pure step function over that record.

Modules:

- `Options` (its own file): the `Option` datatype.
- `CString`: bytes, and the C string routines the client uses. `strncpy` fills with NUL, `strncmp` stops at NUL, and `strcat` joins the C strings.
- `Decimal`: `sprintf("%d")`, its inverse, and the digit-counting loop.
- `Room`: room formatting and the loop over the interface's addresses.
- `Client`: the state and the step functions. These are the serial assembler, `send_packet`, `tcpip_handler`, one pass of the main loop, and the one-shot timer's callback.
- `ClientProperties`: the reachable-state invariant, whole-line lemmas, command lemmas, the loop's gate and the sample scenarios.

The C string routines are modelled exactly, so no blanket "no NUL bytes" precondition is needed. Two lemmas show where NUL matters:

- `CString.StrNCmpAgainstLiteral`: comparing with the NUL-free literals `"00000000"` and `"      "` is plain byte equality.
- `Client.Classify`: copying a card is verbatim when its eight bytes hold no NUL.

Several sizes are fixed constants:

- `SERIAL_BUF_SIZE` = 128, `CARD_ID_SIZE` = 8, `ROOM_SIZE` = 6, `MAX_PAYLOAD_LEN` = 30, `PERIOD` = 60.
- The room offset is 98.
- `SEND_INTERVAL` is `PERIOD * CLOCK_SECOND` clock ticks.

Inputs that the source takes from its environment are parameters:

- the list of interface addresses, as `Room.AddrEntry` values;
- the clock `now` and the start time, in ticks;
- the value `random_rand()` returns, as any natural number;
- the datagram bytes, and whether a wake-up carries new data.

Choices the model makes about the C code:

- The serial buffer has no bound check in the C code. Storing a byte therefore requires `serialIt < SERIAL_BUF_SIZE`, because past that point the C code writes outside `rx_buf`.
- The room number is the octet plus 98, so it is always 98..353. Octet 0 gives `"98    "` and octet 157 gives `"255   "`. The digit-count loop returns 0 for values below 1 (`Decimal.CountDigits`), but the room derivation never reaches such a value.
- The main loop is gated by comparing `room` with six spaces. The serial path is not gated. So when no address qualified at start-up, card lines are still reported, with six spaces as the room, while commands and periodic reports stay off.
- The LEDs are two independent booleans. `ClientProperties.StartupEstablishesInv` and the three `*KeepsInv` lemmas prove that the two are never on together, so only three combinations are reachable.
- A rejected line (wrong length) only resets the cursor; its bytes stay in `rx_buf`.
- Commands are accepted from any sender: `tcpip_handler` does not check the source address.

## Model

| member | source | states |
|---|---|---|
| CString.StrNCpy | sensorsClient.c:194 | the eight bytes `strncpy` writes to `currCard` keep the C string of the source; they equal the source bytes verbatim when those hold no NUL |
| CString.StrNCmpEq | sensorsClient.c:193 | `strncmp(...) == 0` holds exactly when the two buffers' C strings, cut to `n` bytes, are equal |
| CString.StrNCmpAgainstLiteral | sensorsClient.c:256 | against a NUL-free literal, `strncmp` reports equality exactly when the first `n` bytes equal the literal, NUL bytes in the buffer included |
| CString.StrCat | sensorsClient.c:105-107 | `strcat` of room and card onto the empty `temp` yields a NUL-free string no longer than both, equal to room followed by card when neither holds a NUL |
| Decimal.Digits | sensorsClient.c:128 | `sprintf("%d")` writes at least one decimal digit, no NUL, and no leading zero for a positive value |
| Decimal.ParseDigitsOfDigits | sensorsClient.c:128 | reading the printed digits back gives the printed number |
| Decimal.DigitsLength | sensorsClient.c:128 | the number of printed digits is the decimal length of the value: below `10^k`, and at least `10^(k-1)` when there are two or more digits |
| Decimal.CountDigits | sensorsClient.c:129-133 | the `tempr >= 1.0` loop counts exactly the printed digits of a positive value, and counts 0 for a value below 1 |
| Room.DigitsOfRoomNumber | sensorsClient.c:127 | octet plus 98 always has two or three decimal digits |
| Room.RoomOf | sensorsClient.c:127-136 | the room is six NUL-free bytes, never six spaces, starts with a non-zero digit, and reads back as octet plus 98: decimal digits followed only by spaces; together these fix all six bytes |
| Room.PrintRoom | sensorsClient.c:127-136 | `sprintf`, the digit count and the space padding leave the first six bytes of `room` equal to `RoomOf(octet)`; the terminating seventh byte is untouched |
| Room.ScanNoneQualify | sensorsClient.c:122-126 | when no address is used and tentative or preferred, the address loop leaves the room as it was |
| Room.ScanLastWins | sensorsClient.c:122-136 | the last qualifying address enumerated decides the room, whatever the earlier ones gave |
| Room.ScanSetsRoomIff | sensorsClient.c:122-136 | starting from six spaces, the loop leaves the room blank if and only if no address qualifies |
| Room.ScanAddresses | sensorsClient.c:122-144 | the address loop, with the filter of lines 124-125 (used, and tentative or preferred), leaves either the room it started from or the room of some qualifying address, and so always a six-byte NUL-free room when it starts from one |
| Client.Startup | sensorsClient.c:229-252 | before the main loop the card is `"00000000"`, the LEDs are off, nothing is sent, the cursor is 0 and the periodic timer expires one interval after start |
| Client.RoomIsSet | sensorsClient.c:256 | the loop's `strncmp` gate is open exactly when the room differs from six spaces |
| Client.Payload | sensorsClient.c:101-111 | a report is at most 14 bytes, below `MAX_PAYLOAD_LEN` = 30, and is exactly room then card (14 bytes) when both are NUL-free |
| Client.SendPacket | sensorsClient.c:98-113 | each send appends exactly one report, of the current room and card, and increments `seq_id` by exactly 1; nothing else changes |
| Client.Classify | sensorsClient.c:192-207 | a completed line is rejected if and only if its length is not 8; it is a removal if and only if it is the eight bytes `"00000000"`; an inserted card is never `"00000000"` and is the line verbatim when NUL-free |
| Client.FeedByte | sensorsClient.c:179-214 | a terminator on a non-empty buffer resets the cursor to 0; on an empty buffer it changes nothing; any other byte is stored at `rx_buf[serialIt]`, the cursor grows by exactly 1 and nothing else changes |
| Client.FirstByte | sensorsClient.c:80-83 | the handler reads byte 0 of the datagram after writing a NUL past its data, so an empty datagram yields NUL |
| Client.OnDatagram | sensorsClient.c:79-95 | `'1'` gives green on and blue off, `'e'` blue on and green off, `'0'` both off; any other first byte or an empty datagram changes nothing; only the LEDs ever change |
| Client.ProcessWake | sensorsClient.c:254-265 | while the room is six spaces a wake-up changes nothing; once it is set, a datagram with new data sets the LEDs as the command handler does, a wake-up without data leaves them alone, and an expired periodic timer is re-armed one interval later and arms one send at exactly `now + rand % SEND_INTERVAL`, inside `[now, now + SEND_INTERVAL)`; only the LEDs and the timers can change |
| Client.BackoffExpiry | sensorsClient.c:262 | once its delay has passed, the one-shot timer appends exactly one report of the current room and card to the earlier ones, adds 1 to `seq_id` and goes inert, with every other field unchanged; before that it does nothing |
| ClientProperties.StartupEstablishesInv | sensorsClient.c:229-234 | the start state satisfies the invariant; its room is six spaces when no address qualifies and the last qualifying address's room otherwise |
| ClientProperties.FeedByteKeepsInv | sensorsClient.c:179-214 | every serial byte keeps the invariant: shapes, NUL-free room, one `seq_id` per report, never both LEDs on, reports of at most 14 bytes |
| ClientProperties.ProcessWakeKeepsInv | sensorsClient.c:254-265 | every pass of the main loop keeps the invariant |
| ClientProperties.BackoffExpiryKeepsInv | sensorsClient.c:98-113 | the jittered send keeps the invariant |
| ClientProperties.TerminatorAfterCard | sensorsClient.c:192-203 | a terminator after eight buffered bytes other than `"00000000"` makes them the card (verbatim if NUL-free), keeps the LEDs, sends exactly one report and resets the cursor |
| ClientProperties.TerminatorAfterRemoval | sensorsClient.c:193-203 | a terminator after a buffered `"00000000"` sets the card to `"00000000"`, turns both LEDs off whatever they were, and sends exactly one report, room then `"00000000"` |
| ClientProperties.TerminatorAfterBadLength | sensorsClient.c:205-208 | a terminator after a non-empty line whose length is not 8 only resets the cursor |
| ClientProperties.FeedLine | sensorsClient.c:211-213 | feeding a line without terminator writes it verbatim at the cursor, advances the cursor by its length and changes nothing else |
| ClientProperties.CardLine | sensorsClient.c:182-213 | any eight NUL-free bytes and a terminator, from an empty buffer, set the card to those bytes and send exactly room followed by them; `"00000000"` also turns both LEDs off |
| ClientProperties.BadLine | sensorsClient.c:205-213 | a line of any other non-zero length and a terminator leave everything but `rx_buf`'s contents as before |
| ClientProperties.InsertScenario | sensorsClient.c:192-203 | the line `"12345678"` reports room followed by `"12345678"` |
| ClientProperties.RemoveScenario | sensorsClient.c:197-203 | with a card present, the line `"00000000"` turns both LEDs off and reports room followed by `"00000000"` |
| ClientProperties.OnDatagramIdempotent | sensorsClient.c:83-94 | handling the same datagram twice gives the same state as handling it once |
| ClientProperties.OnDatagramLastCommandWins | sensorsClient.c:83-94 | a recognised command decides the LEDs whatever datagram preceded it |
| ClientProperties.CommandScenario | sensorsClient.c:83-94 | `"1xyz"` lights green only, then `"e"` blue only, then `"q"` changes nothing |
| ClientProperties.InertWithoutAddress | sensorsClient.c:256 | if no address qualified at start, every wake-up of the main loop, from any state with that start-up room, leaves the state unchanged |
| ClientProperties.FirstTickArmsSend | sensorsClient.c:252-263 | once an address qualified, the first periodic expiry re-arms the timer one interval later and arms a send at `rand % SEND_INTERVAL` ticks, inside `[now, now + SEND_INTERVAL)` |
| ClientProperties.ReportShape | sensorsClient.c:101-111 | in every reachable state with a NUL-free card, the report is the six room bytes then the eight card bytes, 14 bytes in all, below 30 |

## Left out

- UDP plumbing is not modelled: `udp_new`, `udp_bind`, the process exit when no connection is available, and `uip_udp_packet_sendto` (sensorsClient.c:111-112, 236-247). A send is an append to `sent`.
- `set_global_address` and the choice of server address (sensorsClient.c:147-177) are not modelled. They configure the external IPv6 stack.
- The rewrite of a tentative address to preferred (sensorsClient.c:139-142) is not modelled. It changes the external stack's state and does not affect which addresses qualify.
- Timer semantics are not modelled. An expired periodic timer is read as `now >= periodicAt`. `etimer_reset` is read as "deadline plus one interval". `ctimer_set` is read as "deadline `now + delay`, replacing any pending one".
- `random_rand()` is an arbitrary natural number, which is more general than its 16-bit range.
- `CLOCK_SECOND` is a platform constant that is not part of this model. It is fixed at 128, and the proofs use only that it is positive.
- UART and LED drivers, `printf`/`PRINTF`, and powertrace are not modelled. The LEDs are two booleans, and both are off at start.
- The serial callback runs in interrupt context. Interleavings with the main loop, and bytes that arrive before lines 229-231 run, are not modelled.
- `sprintf(buf, "%s", temp)` into the 30-byte `buf` is a plain copy here. `Client.Payload` proves the report is at most 14 bytes.
- Client.SendPacket: `seq_id` is an unbounded natural. A C `int` would overflow after 2^31 - 1 reports, which is undefined behaviour; that is not modelled.
- Client.FeedByte: storing a byte requires `serialIt < SERIAL_BUF_SIZE`. The source writes past `rx_buf` on the 129th byte of a line, and that write is undefined behaviour with no modelled outcome.
