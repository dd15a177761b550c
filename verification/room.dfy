/**
 The room identifier: the last octet of the node's address plus 98, printed in
 decimal and padded with spaces to six characters; and the scan over the
 interface's addresses that picks the octet.
 */
module Room {
  import opened Options
  import opened CString
  import opened Decimal

  const ROOM_SIZE: nat := 6
  /** Added to the address octet to give the room number. */
  const ROOM_OFFSET: nat := 98

  type Octet = x: nat | x < 256

  function Spaces(n: nat): (r: seq<Byte>)
    ensures |r| == n
    ensures forall i :: 0 <= i < n ==> r[i] == ' '
  {
    seq(n, _ => ' ')
  }

  /** The room before any address has been seen: six spaces. */
  const BlankRoom: seq<Byte> := Spaces(ROOM_SIZE)

  /** Number of leading decimal digits of `s`. */
  function LeadingDigitCount(s: seq<Byte>): (k: nat)
    ensures k <= |s| && AllDigits(s[..k])
    ensures k < |s| ==> !IsDigit(s[k])
  {
    if |s| == 0 || !IsDigit(s[0]) then 0
    else
      var k := 1 + LeadingDigitCount(s[1..]);
      assert s[..k] == [s[0]] + s[1..][..k - 1];
      k
  }

  /** Digits followed by something that does not start with a digit: the
      leading run is exactly the digits. */
  lemma {:induction false} LeadingDigitsOfConcat(d: seq<Byte>, t: seq<Byte>)
    requires AllDigits(d)
    requires |t| > 0 ==> !IsDigit(t[0])
    ensures LeadingDigitCount(d + t) == |d|
  {
    if |d| > 0 {
      assert (d + t)[1..] == d[1..] + t;
      LeadingDigitsOfConcat(d[1..], t);
    }
  }

  /** Reads a room identifier back: a non-empty run of digits followed only by
      spaces denotes the number the digits spell. */
  function RoomValue(r: seq<Byte>): Option<nat> {
    var k := LeadingDigitCount(r);
    if k == 0 || exists i :: k <= i < |r| && r[i] != ' ' then None
    else Some(ParseDigits(r[..k]))
  }

  /** An octet plus the offset is 98..353: two or three decimal digits. */
  lemma DigitsOfRoomNumber(o: Octet)
    ensures 2 <= |Digits(o + ROOM_OFFSET)| <= 3
  {
    var v := o + ROOM_OFFSET;
    assert Digits(v) == Digits(v / 10) + [DigitChar(v % 10)];
    if v >= 100 {
      assert Digits(v / 10) == Digits(v / 100) + [DigitChar((v / 10) % 10)];
    }
  }

  /** The room the node reports for an address whose last octet is `o`. */
  function RoomOf(o: Octet): (r: seq<Byte>)
    ensures |r| == ROOM_SIZE && NoNul(r)
    ensures RoomValue(r) == Some(o + ROOM_OFFSET)
    ensures r[0] != '0'
    ensures r != BlankRoom
  {
    var d := Digits(o + ROOM_OFFSET);
    DigitsOfRoomNumber(o);
    var r := d + Spaces(ROOM_SIZE - |d|);
    assert r[..|d|] == d;
    LeadingDigitsOfConcat(d, Spaces(ROOM_SIZE - |d|));
    ParseDigitsOfDigits(o + ROOM_OFFSET);
    assert r[0] != ' ';
    r
  }

  /** The formatting block of the address loop on the 7-byte `room` array:
      `sprintf(room, "%d", tempr)`, the digit-counting loop, then spaces from
      the digit count up to `ROOM_SIZE`. */
  method PrintRoom(o: Octet, prev: seq<Byte>) returns (room: seq<Byte>)
    requires |prev| == ROOM_SIZE + 1
    ensures |room| == ROOM_SIZE + 1
    ensures room[..ROOM_SIZE] == RoomOf(o)
    ensures room[ROOM_SIZE] == prev[ROOM_SIZE]
  {
    var tempr := o + ROOM_OFFSET;
    var d := Digits(tempr);
    DigitsOfRoomNumber(o);
    room := d + [NUL] + prev[|d| + 1..];
    var j := CountDigits(tempr);
    ghost var want := RoomOf(o);
    while j < ROOM_SIZE
      invariant |d| <= j <= ROOM_SIZE
      invariant |room| == ROOM_SIZE + 1
      invariant room[..j] == want[..j]
      invariant room[ROOM_SIZE] == prev[ROOM_SIZE]
    {
      room := room[j := ' '];
      j := j + 1;
    }
  }

  datatype AddrState = Tentative | Preferred | Deprecated

  /** One slot of the interface's address list, reduced to what the room
      derivation reads. */
  datatype AddrEntry = AddrEntry(isUsed: bool, state: AddrState, lastOctet: Octet)

  /** The loop's filter: a used address that is tentative or preferred. */
  predicate Qualifies(e: AddrEntry) {
    e.isUsed && (e.state == Tentative || e.state == Preferred)
  }

  /** The address loop: every qualifying address, in order, overwrites the
      room. The result is the room it started from or the room of some
      qualifying address, so a six-byte NUL-free room stays one. */
  function ScanAddresses(addrs: seq<AddrEntry>, room: seq<Byte>): (r: seq<Byte>)
    ensures r == room || exists i :: 0 <= i < |addrs| && Qualifies(addrs[i]) && r == RoomOf(addrs[i].lastOctet)
    ensures |room| == ROOM_SIZE && NoNul(room) ==> |r| == ROOM_SIZE && NoNul(r)
  {
    if |addrs| == 0 then room
    else
      var next := if Qualifies(addrs[0]) then RoomOf(addrs[0].lastOctet) else room;
      var r := ScanAddresses(addrs[1..], next);
      assert r == room || exists i :: 0 <= i < |addrs| && Qualifies(addrs[i]) && r == RoomOf(addrs[i].lastOctet) by {
        if r != next {
          var j :| 0 <= j < |addrs[1..]| && Qualifies(addrs[1..][j]) && r == RoomOf(addrs[1..][j].lastOctet);
          assert addrs[1..][j] == addrs[j + 1];
        }
      }
      r
  }

  /** No address of the list qualifies. */
  predicate NoneQualify(addrs: seq<AddrEntry>) {
    forall i :: 0 <= i < |addrs| ==> !Qualifies(addrs[i])
  }

  /** `i` is the last qualifying address of the list. */
  predicate IsLastQualifying(addrs: seq<AddrEntry>, i: nat) {
    i < |addrs| && Qualifies(addrs[i]) && NoneQualify(addrs[i + 1..])
  }

  /** With no qualifying address the scan leaves the room as it was. */
  lemma ScanNoneQualify(addrs: seq<AddrEntry>, room: seq<Byte>)
    requires NoneQualify(addrs)
    ensures ScanAddresses(addrs, room) == room
  {
  }

  /** The last qualifying address decides the room, whatever came before it. */
  lemma {:induction false} ScanLastWins(addrs: seq<AddrEntry>, room: seq<Byte>, i: nat)
    requires IsLastQualifying(addrs, i)
    ensures ScanAddresses(addrs, room) == RoomOf(addrs[i].lastOctet)
  {
    var next := if Qualifies(addrs[0]) then RoomOf(addrs[0].lastOctet) else room;
    if i == 0 {
      assert addrs[1..] == addrs[i + 1..];
      ScanNoneQualify(addrs[1..], next);
    } else {
      assert addrs[1..][i - 1] == addrs[i];
      assert addrs[1..][i..] == addrs[i + 1..];
      ScanLastWins(addrs[1..], next, i - 1);
    }
  }

  /** Starting from the blank room, the scan leaves the room blank exactly
      when no address qualifies. */
  lemma ScanSetsRoomIff(addrs: seq<AddrEntry>)
    ensures ScanAddresses(addrs, BlankRoom) != BlankRoom
        <==> exists i :: 0 <= i < |addrs| && Qualifies(addrs[i])
  {
    if exists i :: 0 <= i < |addrs| && Qualifies(addrs[i]) {
      var i0 :| 0 <= i0 < |addrs| && Qualifies(addrs[i0]);
      var i := LastQualifyingExists(addrs, i0);
      ScanLastWins(addrs, BlankRoom, i);
    } else {
      ScanNoneQualify(addrs, BlankRoom);
    }
  }

  /** Some qualifying address is the last one. */
  lemma LastQualifyingExists(addrs: seq<AddrEntry>, i0: nat) returns (i: nat)
    requires i0 < |addrs| && Qualifies(addrs[i0])
    ensures i0 <= i && IsLastQualifying(addrs, i)
    decreases |addrs| - i0
  {
    if NoneQualify(addrs[i0 + 1..]) {
      i := i0;
    } else {
      var k :| 0 <= k < |addrs[i0 + 1..]| && Qualifies(addrs[i0 + 1..][k]);
      i := LastQualifyingExists(addrs, i0 + 1 + k);
    }
  }

}
