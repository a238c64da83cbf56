/** The ancillary-data macros of cygwin/socket.h (section 20.3 of RFC 3542): a
    chain of length-prefixed messages in a byte buffer and the walk along it.
    Addresses and `size_t` lengths are 64-bit and wrap around. */
module Ancillary {
  import opened Arithmetic
  import opened Bytes

  const WORD := 0x1_0000_0000_0000_0000
  const HEADER_SIZE := 16

  datatype Pointer = Null | At(address: nat)

  /** The part of `struct msghdr` that the macros use: the address and the bytes
      of msg_control, and msg_controllen. */
  datatype MsgHdr = MsgHdr(control: nat, bytes: seq<Byte>, controllen: int)

  datatype Message = Message(level: nat, kind: nat, data: seq<Byte>)

  // ---- the macros ----

  /** CMSG_ALIGN: (len + 7) & ~7. */
  function Align(len: nat): nat {
    (len + 7) % WORD / 8 * 8
  }

  /** CMSG_LEN. */
  function Len(n: nat): nat {
    (Align(HEADER_SIZE) + n) % WORD
  }

  /** CMSG_SPACE. */
  function Space(n: nat): nat {
    (Align(HEADER_SIZE) + Align(n)) % WORD
  }

  /** CMSG_FIRSTHDR: msg_controllen is compared as an unsigned 32-bit number. */
  function FirstHdr(m: MsgHdr): Pointer {
    if m.controllen % 0x1_0000_0000 >= HEADER_SIZE then At(m.control) else Null
  }

  /** CMSG_NXTHDR for a header at `c` whose cmsg_len is `len`. */
  function NextHdr(m: MsgHdr, c: nat, len: nat): Pointer {
    if (c + Space(len)) % WORD > (m.control + m.controllen) % WORD then Null
    else At((c + Align(len)) % WORD)
  }

  // ---- memory ----

  /** The buffer is an object in memory, as long as msg_controllen says, and not in
      the last few bytes of the address space. */
  ghost predicate WellPlaced(m: MsgHdr) {
    && 0 < m.control
    && m.controllen == |m.bytes| < 0x8000_0000
    && m.control + |m.bytes| + 32 <= WORD
  }

  /** A whole header fits between `c` and the end of the buffer. */
  predicate HeaderInside(m: MsgHdr, c: nat) {
    m.control <= c && c + HEADER_SIZE <= m.control + |m.bytes|
  }

  function LittleEndian(x: nat, n: nat): (s: seq<Byte>)
    ensures |s| == n
  {
    if n == 0 then [] else [(x % 256) as Byte] + LittleEndian(x / 256, n - 1)
  }

  function FromLittleEndian(s: seq<Byte>): nat {
    if s == [] then 0 else s[0] as nat + 256 * FromLittleEndian(s[1..])
  }

  /** cmsg_len, cmsg_level, cmsg_type and CMSG_DATA of the header at `c`. */
  function LenAt(m: MsgHdr, c: nat): nat {
    if HeaderInside(m, c) then FromLittleEndian(m.bytes[c - m.control..][..8]) else 0
  }

  function LevelAt(m: MsgHdr, c: nat): nat
    requires HeaderInside(m, c)
  {
    FromLittleEndian(m.bytes[c - m.control..][8..12])
  }

  function KindAt(m: MsgHdr, c: nat): nat
    requires HeaderInside(m, c)
  {
    FromLittleEndian(m.bytes[c - m.control..][12..16])
  }

  function DataAt(m: MsgHdr, c: nat): seq<Byte>
    requires HeaderInside(m, c)
  {
    m.bytes[c - m.control..][HEADER_SIZE..]
  }

  lemma NextByte(s: seq<Byte>, k: nat)
    requires k < |s|
    ensures FromLittleEndian(s[k..]) == s[k] as nat + 0x100 * FromLittleEndian(s[k + 1..])
  {
    assert s[k..][1..] == s[k + 1..];
  }

  lemma FourBytes(s: seq<Byte>)
    requires |s| == 4
    ensures FromLittleEndian(s)
         == s[0] as nat + 0x100 * s[1] as nat + 0x1_0000 * s[2] as nat + 0x100_0000 * s[3] as nat
  {
    assert s[0..] == s;
    NextByte(s, 0);
    NextByte(s, 1);
    NextByte(s, 2);
    NextByte(s, 3);
  }

  lemma EightBytes(s: seq<Byte>)
    requires |s| == 8
    ensures FromLittleEndian(s) == FromLittleEndian(s[..4]) + 0x1_0000_0000 * FromLittleEndian(s[4..])
  {
    FourBytes(s[..4]);
    assert s[0..] == s;
    NextByte(s, 0);
    NextByte(s, 1);
    NextByte(s, 2);
    NextByte(s, 3);
  }

  /** Where the fields of a header are, byte by byte: a length of eight bytes, level and
      type of four each, least significant byte first, and then the data. */
  lemma HeaderFields(m: MsgHdr, c: nat)
    requires HeaderInside(m, c)
    ensures var b := m.bytes[c - m.control..];
            && LenAt(m, c)
               == b[0] as nat + 0x100 * b[1] as nat + 0x1_0000 * b[2] as nat + 0x100_0000 * b[3] as nat
                  + 0x1_0000_0000 * (b[4] as nat + 0x100 * b[5] as nat + 0x1_0000 * b[6] as nat
                                     + 0x100_0000 * b[7] as nat)
            && LevelAt(m, c)
               == b[8] as nat + 0x100 * b[9] as nat + 0x1_0000 * b[10] as nat + 0x100_0000 * b[11] as nat
            && KindAt(m, c)
               == b[12] as nat + 0x100 * b[13] as nat + 0x1_0000 * b[14] as nat + 0x100_0000 * b[15] as nat
            && DataAt(m, c) == m.bytes[c - m.control + 16..]
  {
    var b := m.bytes[c - m.control..];
    EightBytes(b[..8]);
    FourBytes(b[..8][..4]);
    FourBytes(b[..8][4..]);
    FourBytes(b[8..12]);
    FourBytes(b[12..16]);
  }

  // ---- the walk ----

  /** Starting at `c`, following CMSG_NXTHDR visits `hs`. */
  ghost predicate Visits(m: MsgHdr, c: Pointer, hs: seq<nat>)
    decreases |hs|
  {
    hs != [] ==> c == At(hs[0]) && Visits(m, NextHdr(m, hs[0], LenAt(m, hs[0])), hs[1..])
  }

  /** It visits `hs` and then returns NULL. */
  ghost predicate Completes(m: MsgHdr, c: Pointer, hs: seq<nat>)
    decreases |hs|
  {
    if hs == [] then c == Null
    else c == At(hs[0]) && Completes(m, NextHdr(m, hs[0], LenAt(m, hs[0])), hs[1..])
  }

  lemma {:induction false} CompleteWalkUnique(m: MsgHdr, c: Pointer, hs: seq<nat>, ks: seq<nat>)
    requires Completes(m, c, hs) && Completes(m, c, ks)
    ensures hs == ks
    decreases |hs|
  {
    if hs != [] {
      CompleteWalkUnique(m, NextHdr(m, hs[0], LenAt(m, hs[0])), hs[1..], ks[1..]);
      assert hs == [hs[0]] + hs[1..] && ks == [ks[0]] + ks[1..];
    }
  }

  // ---- safety of one step ----

  /** The next multiple of 8, without wrapping. */
  function RoundUp8(n: nat): nat {
    (n + 7) / 8 * 8
  }

  /** The pointer sums in CMSG_NXTHDR do not wrap around. */
  predicate NonWrapping(c: nat, len: nat) {
    c + RoundUp8(len) + HEADER_SIZE < WORD
  }

  lemma RoundUp8Bounds(n: nat)
    ensures n <= RoundUp8(n) < n + 8 && RoundUp8(n) % 8 == 0
  {
  }

  lemma AlignIsRoundUp(n: nat)
    requires RoundUp8(n) < WORD
    ensures Align(n) == RoundUp8(n)
  {
    RoundUp8Bounds(n);
  }

  /** Without wrapping, CMSG_NXTHDR moves to the next multiple of 8 behind the
      message, and returns NULL exactly when no further header fits there. */
  lemma NextHdrExact(m: MsgHdr, c: nat, len: nat)
    requires WellPlaced(m) && HeaderInside(m, c) && NonWrapping(c, len)
    ensures NextHdr(m, c, len) == if HeaderInside(m, c + RoundUp8(len)) then At(c + RoundUp8(len)) else Null
  {
    RoundUp8Bounds(len);
    AlignIsRoundUp(len);
    assert Space(len) == HEADER_SIZE + RoundUp8(len);
    assert (c + Space(len)) % WORD == c + Space(len);
    assert (m.control + m.controllen) % WORD == m.control + m.controllen;
  }

  /** A successor is the header right after the message, inside the buffer, if and
      only if the arithmetic does not wrap. */
  lemma NextHdrSafeIff(m: MsgHdr, c: nat, len: nat)
    requires WellPlaced(m) && HeaderInside(m, c) && len < WORD && NextHdr(m, c, len).At?
    ensures NonWrapping(c, len) <==>
              HeaderInside(m, NextHdr(m, c, len).address) && NextHdr(m, c, len).address == c + RoundUp8(len)
  {
    if NonWrapping(c, len) {
      NextHdrExact(m, c, len);
    }
  }

  /** A length that does wrap: behind a header with cmsg_len 2^64 - 8, not the first
      in its buffer, CMSG_NXTHDR points eight bytes back instead of stopping. */
  lemma WrappingLengthGoesBack(m: MsgHdr)
    requires WellPlaced(m) && 32 <= |m.bytes|
    ensures var c := m.control + HEADER_SIZE;
            && HeaderInside(m, c) && !NonWrapping(c, WORD - 8)
            && NextHdr(m, c, WORD - 8) == At(m.control + 8)
  {
    assert Align(WORD - 8) == WORD - 8 && Space(WORD - 8) == 8;
    DivModUnique(m.control + HEADER_SIZE + (WORD - 8), 1, m.control + 8, WORD);
  }

  lemma FirstHdrExact(m: MsgHdr)
    requires WellPlaced(m)
    ensures FirstHdr(m) == if HeaderInside(m, m.control) then At(m.control) else Null
  {
  }

  /** CMSG_FIRSTHDR never points at a missing header if and only if
      msg_controllen is not negative. */
  lemma FirstHdrSafeIff(m: MsgHdr)
    requires -0x8000_0000 <= m.controllen < 0x8000_0000
    ensures (FirstHdr(m).At? ==> HEADER_SIZE <= m.controllen) <==> 0 <= m.controllen
  {
  }

  // ---- the walk over arbitrary bytes ----

  /** Every visited header has a length that is at least `least` and does not wrap. */
  ghost predicate SaneLengths(m: MsgHdr, hs: seq<nat>, least: nat) {
    forall i | 0 <= i < |hs| :: least <= LenAt(m, hs[i]) < WORD && NonWrapping(hs[i], LenAt(m, hs[i]))
  }

  lemma {:induction false} VisitsFromInside(m: MsgHdr, c: nat, hs: seq<nat>, least: nat, stride: nat)
    requires WellPlaced(m) && HeaderInside(m, c) && Visits(m, At(c), hs) && SaneLengths(m, hs, least)
    requires stride <= RoundUp8(least)
    ensures forall i | 0 <= i < |hs| :: HeaderInside(m, hs[i])
    ensures hs != [] ==> stride * (|hs| - 1) + c + HEADER_SIZE <= m.control + |m.bytes|
    decreases |hs|
  {
    if hs != [] {
      var len := LenAt(m, c);
      NextHdrExact(m, c, len);
      assert stride <= RoundUp8(len);
      assert hs == [hs[0]] + hs[1..];
      if |hs| > 1 {
        VisitsFromInside(m, c + RoundUp8(len), hs[1..], least, stride);
        Distribute(stride, |hs| - 2, 1);
      }
    }
  }

  /** Whatever the bytes are: as long as the lengths found do not wrap, every header
      visited lies inside the buffer; if they also cover a header, at most one header
      is visited for every 16 bytes. */
  lemma WalkStaysInside(m: MsgHdr, hs: seq<nat>, least: nat)
    requires WellPlaced(m) && Visits(m, FirstHdr(m), hs) && SaneLengths(m, hs, least)
    ensures forall i | 0 <= i < |hs| :: HeaderInside(m, hs[i])
    ensures 1 <= least ==> 8 * |hs| <= |m.bytes|
    ensures HEADER_SIZE <= least ==> HEADER_SIZE * |hs| <= |m.bytes|
  {
    FirstHdrExact(m);
    if hs != [] {
      RoundUp8Bounds(least);
      if least == 0 {
        VisitsFromInside(m, m.control, hs, least, 0);
      } else if least < HEADER_SIZE {
        VisitsFromInside(m, m.control, hs, least, 8);
      } else {
        VisitsFromInside(m, m.control, hs, least, 16);
      }
    }
  }

  /** A header whose length is zero is its own successor: the walk never ends. */
  lemma {:induction false} ZeroLengthLoops(m: MsgHdr, c: nat, n: nat)
    requires WellPlaced(m) && HeaderInside(m, c) && LenAt(m, c) == 0
    ensures Visits(m, At(c), seq(n, _ => c))
  {
    if n > 0 {
      var hs := seq(n, _ => c);
      NextHdrExact(m, c, 0);
      ZeroLengthLoops(m, c, n - 1);
      assert hs[1..] == seq(n - 1, _ => c);
    }
  }

  lemma {:induction false} ZerosAreZero(n: nat)
    ensures FromLittleEndian(seq(n, _ => 0 as Byte)) == 0
  {
    if n > 0 {
      ZerosAreZero(n - 1);
      assert seq(n, _ => 0 as Byte)[1..] == seq(n - 1, _ => 0 as Byte);
    }
  }

  /** Sixteen zero bytes are such a buffer: walks of every length start there, and
      none of them ends. */
  lemma ZeroBufferLoops(n: nat, ks: seq<nat>)
    ensures var m := MsgHdr(0x1000, seq(16, _ => 0 as Byte), 16);
            && WellPlaced(m) && LenAt(m, 0x1000) == 0
            && Visits(m, FirstHdr(m), seq(n, _ => 0x1000))
            && !Completes(m, FirstHdr(m), ks)
  {
    var m := MsgHdr(0x1000, seq(16, _ => 0 as Byte), 16);
    assert m.bytes[0x1000 - m.control..][..8] == seq(8, _ => 0 as Byte);
    ZerosAreZero(8);
    FirstHdrExact(m);
    ZeroLengthLoops(m, 0x1000, n);
    ZeroLengthLoops(m, 0x1000, |ks| + 1);
    if Completes(m, FirstHdr(m), ks) {
      VisitsWithinComplete(m, FirstHdr(m), seq(|ks| + 1, _ => 0x1000), ks);
    }
  }

  /** A walk never visits more headers than a complete one. */
  lemma {:induction false} VisitsWithinComplete(m: MsgHdr, c: Pointer, hs: seq<nat>, ks: seq<nat>)
    requires Visits(m, c, hs) && Completes(m, c, ks)
    ensures |hs| <= |ks|
    decreases |hs|
  {
    if hs != [] {
      VisitsWithinComplete(m, NextHdr(m, hs[0], LenAt(m, hs[0])), hs[1..], ks[1..]);
    }
  }

  /** A walk that reaches a header can go on from it in every way the header allows. */
  lemma {:induction false} WalkGoesOn(m: MsgHdr, c: Pointer, hs: seq<nat>, i: nat, ks: seq<nat>)
    requires i < |hs| && Visits(m, c, hs) && Visits(m, At(hs[i]), ks)
    ensures Visits(m, c, hs[..i] + ks)
    decreases |hs|
  {
    if i == 0 {
      assert hs[..0] + ks == ks;
    } else {
      WalkGoesOn(m, NextHdr(m, hs[0], LenAt(m, hs[0])), hs[1..], i - 1, ks);
      assert (hs[..i] + ks)[1..] == hs[1..][..i - 1] + ks;
    }
  }

  /** Every header that can be visited from `c` on has a length that is at least
      `least` and does not wrap. */
  ghost predicate SaneFrom(m: MsgHdr, c: Pointer, least: nat) {
    forall hs | Visits(m, c, hs) :: SaneLengths(m, hs, least)
  }

  lemma PrependVisit(m: MsgHdr, c: nat, hs: seq<nat>)
    requires Visits(m, NextHdr(m, c, LenAt(m, c)), hs)
    ensures Visits(m, At(c), [c] + hs)
  {
    assert ([c] + hs)[1..] == hs;
  }

  lemma SaneAtHeader(m: MsgHdr, c: nat, least: nat)
    requires SaneFrom(m, At(c), least)
    ensures least <= LenAt(m, c) < WORD && NonWrapping(c, LenAt(m, c))
    ensures SaneFrom(m, NextHdr(m, c, LenAt(m, c)), least)
  {
    var next := NextHdr(m, c, LenAt(m, c));
    PrependVisit(m, c, []);
    assert SaneLengths(m, [c] + [], least);
    assert ([c] + [])[0] == c;
    forall hs | Visits(m, next, hs)
      ensures SaneLengths(m, hs, least)
    {
      PrependVisit(m, c, hs);
      assert SaneLengths(m, [c] + hs, least);
      forall i | 0 <= i < |hs|
        ensures least <= LenAt(m, hs[i]) < WORD && NonWrapping(hs[i], LenAt(m, hs[i]))
      {
        assert ([c] + hs)[i + 1] == hs[i];
      }
    }
  }

  /** Over arbitrary bytes the walk reaches NULL when the lengths it meets are not
      zero and do not wrap. */
  lemma WalkReachesNull(m: MsgHdr, c: nat) returns (hs: seq<nat>)
    requires WellPlaced(m) && HeaderInside(m, c) && SaneFrom(m, At(c), 1)
    ensures Completes(m, At(c), hs)
    decreases m.control + |m.bytes| - c
  {
    var len := LenAt(m, c);
    SaneAtHeader(m, c, 1);
    NextHdrExact(m, c, len);
    RoundUp8Bounds(len);
    hs := [];
    if HeaderInside(m, c + RoundUp8(len)) {
      hs := WalkReachesNull(m, c + RoundUp8(len));
    }
    PrependHeader(m, c, hs);
    hs := [c] + hs;
  }

  lemma PrependHeader(m: MsgHdr, c: nat, hs: seq<nat>)
    requires Completes(m, NextHdr(m, c, LenAt(m, c)), hs)
    ensures Completes(m, At(c), [c] + hs)
  {
    assert ([c] + hs)[1..] == hs;
  }

  /** A walk that can reach a header of length zero does not end. */
  lemma ZeroLengthNeverCompletes(m: MsgHdr, hs: seq<nat>, i: nat, ks: seq<nat>)
    requires WellPlaced(m) && Visits(m, FirstHdr(m), hs) && SaneLengths(m, hs, 0)
    requires i < |hs| && LenAt(m, hs[i]) == 0
    ensures !Completes(m, FirstHdr(m), ks)
  {
    WalkStaysInside(m, hs, 0);
    ZeroLengthLoops(m, hs[i], |ks| + 1);
    var long := hs[..i] + seq(|ks| + 1, _ => hs[i]);
    WalkGoesOn(m, FirstHdr(m), hs, i, seq(|ks| + 1, _ => hs[i]));
    if Completes(m, FirstHdr(m), ks) {
      VisitsWithinComplete(m, FirstHdr(m), long, ks);
    }
  }

  /** The walk over the buffer reaches NULL. */
  ghost predicate WalkEnds(m: MsgHdr) {
    exists hs :: Completes(m, FirstHdr(m), hs)
  }

  ghost predicate MeetsZeroLength(m: MsgHdr) {
    exists hs, i :: Visits(m, FirstHdr(m), hs) && 0 <= i < |hs| && LenAt(m, hs[i]) == 0
  }

  lemma EndsWithoutZeroLength(m: MsgHdr)
    requires WellPlaced(m) && SaneFrom(m, FirstHdr(m), 1)
    ensures WalkEnds(m)
  {
    FirstHdrExact(m);
    if FirstHdr(m) == Null {
      assert Completes(m, FirstHdr(m), []);
    } else {
      var hs := WalkReachesNull(m, m.control);
      assert Completes(m, FirstHdr(m), hs);
    }
  }

  /** Over any buffer whose lengths do not wrap, the walk reaches NULL if and only if
      no header that it visits has length zero. */
  lemma WalkEndsIff(m: MsgHdr)
    requires WellPlaced(m) && SaneFrom(m, FirstHdr(m), 0)
    ensures WalkEnds(m) <==> !MeetsZeroLength(m)
  {
    if MeetsZeroLength(m) {
      var hs, i :| Visits(m, FirstHdr(m), hs) && 0 <= i < |hs| && LenAt(m, hs[i]) == 0;
      forall ks
        ensures !Completes(m, FirstHdr(m), ks)
      {
        ZeroLengthNeverCompletes(m, hs, i, ks);
      }
    } else {
      assert SaneFrom(m, FirstHdr(m), 1);
      EndsWithoutZeroLength(m);
    }
  }

  // ---- building a chain, and reading it back ----

  function HeaderBytes(msg: Message): (s: seq<Byte>)
    ensures |s| == HEADER_SIZE
  {
    LittleEndian(Len(|msg.data|), 8) + LittleEndian(msg.level, 4) + LittleEndian(msg.kind, 4)
  }

  /** The buffer holds the messages one after the other at strides CMSG_SPACE, each
      as a header with cmsg_len = CMSG_LEN and its data; padding is arbitrary, the
      last message may be unpadded, and less than a header may be left over. */
  ghost predicate LaidOut(bytes: seq<Byte>, msgs: seq<Message>)
    decreases |msgs|
  {
    if msgs == [] then |bytes| < HEADER_SIZE
    else
      var n := |msgs[0].data|;
      && HEADER_SIZE + n <= |bytes|
      && bytes[..HEADER_SIZE + n] == HeaderBytes(msgs[0]) + msgs[0].data
      && (if |msgs| == 1 then |bytes| < HEADER_SIZE + RoundUp8(n) + HEADER_SIZE
          else HEADER_SIZE + RoundUp8(n) <= |bytes| && LaidOut(bytes[HEADER_SIZE + RoundUp8(n)..], msgs[1..]))
  }

  ghost predicate FieldsFit(msg: Message) {
    msg.level < 0x1_0000_0000 && msg.kind < 0x1_0000_0000 && |msg.data| < 0x8000_0000
  }

  /** Where the headers are. */
  function Addresses(c: nat, msgs: seq<Message>): seq<nat>
    decreases |msgs|
  {
    if msgs == [] then [] else [c] + Addresses(c + HEADER_SIZE + RoundUp8(|msgs[0].data|), msgs[1..])
  }

  /** How many values `n` bytes can hold. */
  function Range(n: nat): nat {
    if n == 0 then 1 else 256 * Range(n - 1)
  }

  lemma {:induction false} LittleEndianRoundTrip(x: nat, n: nat)
    requires x < Range(n)
    ensures FromLittleEndian(LittleEndian(x, n)) == x
  {
    if n > 0 {
      LittleEndianRoundTrip(x / 256, n - 1);
      assert LittleEndian(x, n)[1..] == LittleEndian(x / 256, n - 1);
    }
  }

  /** What is stored at the header of a message is what was put there. */
  ghost predicate Holds(m: MsgHdr, c: nat, msg: Message) {
    && HeaderInside(m, c)
    && LenAt(m, c) == HEADER_SIZE + |msg.data|
    && LevelAt(m, c) == msg.level
    && KindAt(m, c) == msg.kind
    && msg.data <= DataAt(m, c)
  }

  lemma WordReadsBack(x: nat, n: nat)
    requires (n == 4 && x < 0x1_0000_0000) || (n == 8 && x < WORD)
    ensures FromLittleEndian(LittleEndian(x, n)) == x
  {
    assert Range(4) == 0x1_0000_0000 && Range(8) == WORD;
    LittleEndianRoundTrip(x, n);
  }

  /** The slices of a header followed by its data. */
  lemma HeaderSlices(msg: Message, tail: seq<Byte>)
    requires HEADER_SIZE + |msg.data| <= |tail|
    requires tail[..HEADER_SIZE + |msg.data|] == HeaderBytes(msg) + msg.data
    ensures tail[..8] == LittleEndian(Len(|msg.data|), 8)
    ensures tail[8..12] == LittleEndian(msg.level, 4)
    ensures tail[12..16] == LittleEndian(msg.kind, 4)
    ensures msg.data <= tail[HEADER_SIZE..]
  {
    var all := HeaderBytes(msg) + msg.data;
    forall k | 0 <= k < |all|
      ensures tail[k] == all[k]
    {
      assert tail[..HEADER_SIZE + |msg.data|][k] == all[k];
    }
  }

  lemma LenOfData(n: nat)
    requires n < 0x8000_0000
    ensures Len(n) == HEADER_SIZE + n < WORD
  {
  }

  lemma LenReadsBack(msg: Message, tail: seq<Byte>)
    requires FieldsFit(msg) && 8 <= |tail| && tail[..8] == LittleEndian(Len(|msg.data|), 8)
    ensures FromLittleEndian(tail[..8]) == HEADER_SIZE + |msg.data|
  {
    LenOfData(|msg.data|);
    WordReadsBack(HEADER_SIZE + |msg.data|, 8);
  }

  lemma HeaderReadsBack(m: MsgHdr, c: nat, msg: Message)
    requires m.control <= c && c + HEADER_SIZE + |msg.data| <= m.control + |m.bytes| && FieldsFit(msg)
    requires m.bytes[c - m.control..][..HEADER_SIZE + |msg.data|] == HeaderBytes(msg) + msg.data
    ensures Holds(m, c, msg)
  {
    var tail := m.bytes[c - m.control..];
    HeaderSlices(msg, tail);
    LenReadsBack(msg, tail);
    WordReadsBack(msg.level, 4);
    WordReadsBack(msg.kind, 4);
  }

  /** The rest of a layout, behind its first message. */
  lemma LaidOutTail(bytes: seq<Byte>, msgs: seq<Message>)
    requires LaidOut(bytes, msgs) && 1 < |msgs|
    ensures HEADER_SIZE + RoundUp8(|msgs[0].data|) + HEADER_SIZE <= |bytes|
    ensures LaidOut(bytes[HEADER_SIZE + RoundUp8(|msgs[0].data|)..], msgs[1..])
  {
  }

  lemma RoundUp8OfMessage(n: nat)
    ensures RoundUp8(HEADER_SIZE + n) == HEADER_SIZE + RoundUp8(n)
  {
  }

  lemma FirstMessageHeld(m: MsgHdr, c: nat, msgs: seq<Message>)
    requires m.control <= c <= m.control + |m.bytes|
    requires LaidOut(m.bytes[c - m.control..], msgs) && msgs != [] && FieldsFit(msgs[0])
    ensures Holds(m, c, msgs[0])
  {
    HeaderReadsBack(m, c, msgs[0]);
  }

  /** The layout goes on where the next header is. */
  lemma LayoutGoesOn(m: MsgHdr, c: nat, msgs: seq<Message>)
    requires m.control <= c <= m.control + |m.bytes|
    requires LaidOut(m.bytes[c - m.control..], msgs) && 1 < |msgs|
    ensures var next := c + HEADER_SIZE + RoundUp8(|msgs[0].data|);
            HeaderInside(m, next) && LaidOut(m.bytes[next - m.control..], msgs[1..])
  {
    var n := |msgs[0].data|;
    LaidOutTail(m.bytes[c - m.control..], msgs);
    assert m.bytes[c - m.control..][HEADER_SIZE + RoundUp8(n)..]
        == m.bytes[c + HEADER_SIZE + RoundUp8(n) - m.control..];
  }

  lemma NoHeaderFollows(m: MsgHdr, c: nat, msgs: seq<Message>)
    requires m.control <= c <= m.control + |m.bytes|
    requires LaidOut(m.bytes[c - m.control..], msgs) && |msgs| == 1
    ensures !HeaderInside(m, c + HEADER_SIZE + RoundUp8(|msgs[0].data|))
  {
  }

  /** Behind the first message the walk finds the next header, or stops. */
  lemma StepToNext(m: MsgHdr, c: nat, msgs: seq<Message>)
    requires WellPlaced(m) && m.control <= c <= m.control + |m.bytes|
    requires LaidOut(m.bytes[c - m.control..], msgs) && msgs != [] && FieldsFit(msgs[0])
    ensures NextHdr(m, c, LenAt(m, c))
         == if |msgs| == 1 then Null else At(c + HEADER_SIZE + RoundUp8(|msgs[0].data|))
  {
    var n := |msgs[0].data|;
    FirstMessageHeld(m, c, msgs);
    RoundUp8OfMessage(n);
    RoundUp8Bounds(n);
    NextHdrExact(m, c, HEADER_SIZE + n);
    if |msgs| == 1 {
      NoHeaderFollows(m, c, msgs);
    } else {
      LayoutGoesOn(m, c, msgs);
    }
  }

  /** Each message is held at its address. */
  ghost predicate AllHeld(m: MsgHdr, hs: seq<nat>, msgs: seq<Message>) {
    |hs| == |msgs| && forall k | 0 <= k < |msgs| :: Holds(m, hs[k], msgs[k])
  }

  lemma {:induction false} AddressesLength(c: nat, msgs: seq<Message>)
    ensures |Addresses(c, msgs)| == |msgs|
    decreases |msgs|
  {
    if msgs != [] {
      AddressesLength(c + HEADER_SIZE + RoundUp8(|msgs[0].data|), msgs[1..]);
    }
  }

  lemma {:induction false} MessageHeld(m: MsgHdr, c: nat, msgs: seq<Message>, k: nat)
    requires m.control <= c <= m.control + |m.bytes| && LaidOut(m.bytes[c - m.control..], msgs)
    requires k < |msgs| == |Addresses(c, msgs)| && FieldsFit(msgs[k])
    ensures Holds(m, Addresses(c, msgs)[k], msgs[k])
    decreases |msgs|
  {
    if k == 0 {
      FirstMessageHeld(m, c, msgs);
    } else {
      LayoutGoesOn(m, c, msgs);
      MessageHeld(m, c + HEADER_SIZE + RoundUp8(|msgs[0].data|), msgs[1..], k - 1);
    }
  }

  lemma AllMessagesHeld(m: MsgHdr, msgs: seq<Message>)
    requires LaidOut(m.bytes, msgs) && forall k | 0 <= k < |msgs| :: FieldsFit(msgs[k])
    ensures AllHeld(m, Addresses(m.control, msgs), msgs)
  {
    AddressesLength(m.control, msgs);
    assert m.bytes[m.control - m.control..] == m.bytes;
    forall k | 0 <= k < |msgs|
      ensures Holds(m, Addresses(m.control, msgs)[k], msgs[k])
    {
      MessageHeld(m, m.control, msgs, k);
    }
  }

  /** From the header of the first of `msgs` on, the walk finds exactly them. */
  lemma {:induction false} WalkFromCompletes(m: MsgHdr, c: nat, msgs: seq<Message>)
    requires WellPlaced(m) && m.control <= c <= m.control + |m.bytes|
    requires LaidOut(m.bytes[c - m.control..], msgs) && msgs != []
    requires forall k | 0 <= k < |msgs| :: FieldsFit(msgs[k])
    ensures Completes(m, At(c), Addresses(c, msgs))
    decreases |msgs|
  {
    var next := c + HEADER_SIZE + RoundUp8(|msgs[0].data|);
    StepToNext(m, c, msgs);
    if |msgs| > 1 {
      LayoutGoesOn(m, c, msgs);
      WalkFromCompletes(m, next, msgs[1..]);
    }
    PrependHeader(m, c, Addresses(next, msgs[1..]));
  }

  lemma WalkCompletes(m: MsgHdr, msgs: seq<Message>)
    requires WellPlaced(m) && LaidOut(m.bytes, msgs)
    requires forall k | 0 <= k < |msgs| :: FieldsFit(msgs[k])
    ensures Completes(m, FirstHdr(m), Addresses(m.control, msgs))
  {
    FirstHdrExact(m);
    if msgs == [] {
      assert Addresses(m.control, msgs) == [];
    } else {
      assert m.bytes[m.control - m.control..] == m.bytes;
      WalkFromCompletes(m, m.control, msgs);
      assert FirstHdr(m) == At(m.control);
    }
  }

  /** Reading back a chain: CMSG_FIRSTHDR and CMSG_NXTHDR visit exactly the messages
      that were laid out, in order, and then return NULL; each header holds the
      length, level, type and data of its message. */
  lemma ChainRoundTrip(m: MsgHdr, msgs: seq<Message>, hs: seq<nat>)
    requires WellPlaced(m) && LaidOut(m.bytes, msgs)
    requires forall k | 0 <= k < |msgs| :: FieldsFit(msgs[k])
    ensures Completes(m, FirstHdr(m), hs) <==> hs == Addresses(m.control, msgs)
    ensures AllHeld(m, Addresses(m.control, msgs), msgs)
  {
    AllMessagesHeld(m, msgs);
    WalkCompletes(m, msgs);
    if Completes(m, FirstHdr(m), hs) {
      CompleteWalkUnique(m, FirstHdr(m), hs, Addresses(m.control, msgs));
    }
  }

  /** The bytes a sender writes: padding up to CMSG_SPACE with zeros. */
  function Serialize(msgs: seq<Message>): seq<Byte> {
    if msgs == [] then []
    else
      var n := |msgs[0].data|;
      HeaderBytes(msgs[0]) + msgs[0].data
      + seq(if n <= Align(n) then Align(n) - n else 0, _ => 0 as Byte) + Serialize(msgs[1..])
  }

  lemma {:induction false} SerializeLaysOut(msgs: seq<Message>)
    requires forall k | 0 <= k < |msgs| :: FieldsFit(msgs[k])
    ensures LaidOut(Serialize(msgs), msgs)
  {
    if msgs != [] {
      var n := |msgs[0].data|;
      AlignIsRoundUp(n);
      SerializeLaysOut(msgs[1..]);
      assert Serialize(msgs)[HEADER_SIZE + RoundUp8(n)..] == Serialize(msgs[1..]);
    }
  }
}
