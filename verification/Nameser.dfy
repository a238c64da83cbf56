/** The buffer macros of arpa/nameser.h: the NXT type bitmap and the big-endian
    cursor codec, and the byte swaps of bits/byteswap.h they correspond to. */
module Nameser {

  // ---- the NXT bitmap (section 5.2 of RFC 2535) ----

  const NXT_BITS := 8

  /** 0x80 >> (n % NS_NXT_BITS). */
  function Mask(n: nat): bv8 {
    (0x80 as bv8) >> (n % NXT_BITS)
  }

  /** NS_NXT_BIT_ISSET on the bytes of a buffer. */
  predicate IsSet(n: nat, bytes: seq<bv8>) {
    n / NXT_BITS < |bytes| && bytes[n / NXT_BITS] & Mask(n) != 0
  }

  /** The set of types that the bitmap stands for. */
  ghost function Members(bytes: seq<bv8>): set<nat> {
    set n: nat | n < NXT_BITS * |bytes| && IsSet(n, bytes)
  }

  lemma MembersAreSetBits(bytes: seq<bv8>)
    ensures forall n: nat :: n in Members(bytes) <==> IsSet(n, bytes)
  {
  }

  function SetBit(n: nat, bytes: seq<bv8>): seq<bv8>
    requires n / NXT_BITS < |bytes|
  {
    bytes[n / NXT_BITS := bytes[n / NXT_BITS] | Mask(n)]
  }

  function ClearBit(n: nat, bytes: seq<bv8>): seq<bv8>
    requires n / NXT_BITS < |bytes|
  {
    bytes[n / NXT_BITS := bytes[n / NXT_BITS] & !Mask(n)]
  }

  /** The eight masks are the eight single bits. */
  lemma MaskTable(n: nat)
    ensures Mask(n) == [0x80, 0x40, 0x20, 0x10, 0x08, 0x04, 0x02, 0x01][n % NXT_BITS]
  {
  }

  lemma MasksDisjoint(i: nat, j: nat)
    requires i % NXT_BITS != j % NXT_BITS
    ensures Mask(i) & Mask(j) == 0
  {
    MaskTable(i);
    MaskTable(j);
  }

  lemma BitAlgebra(b: bv8, m: bv8, k: bv8)
    requires m != 0 && k != 0
    ensures (b | m) & m == m && (b & !m) & m == 0
    ensures m & k == 0 ==> (b | m) & k == b & k && (b & !m) & k == b & k
  {
  }

  lemma MaskNotZero(n: nat)
    ensures Mask(n) != 0
  {
    MaskTable(n);
  }

  /** Setting or clearing bit `n` decides membership of `n` and of nothing else. */
  lemma BitUpdates(n: nat, bytes: seq<bv8>, k: nat)
    requires n / NXT_BITS < |bytes|
    ensures IsSet(k, SetBit(n, bytes)) <==> k == n || IsSet(k, bytes)
    ensures IsSet(k, ClearBit(n, bytes)) <==> k != n && IsSet(k, bytes)
  {
    MaskNotZero(n);
    MaskNotZero(k);
    if k / NXT_BITS == n / NXT_BITS {
      BitAlgebra(bytes[n / NXT_BITS], Mask(n), Mask(k));
      if k != n {
        MasksDisjoint(n, k);
      }
    }
  }

  lemma SetAndClearMembers(n: nat, bytes: seq<bv8>)
    requires n < 8 * |bytes|
    ensures Members(SetBit(n, bytes)) == Members(bytes) + {n}
    ensures Members(ClearBit(n, bytes)) == Members(bytes) - {n}
  {
    forall k: nat
      ensures k in Members(SetBit(n, bytes)) <==> k in Members(bytes) + {n}
      ensures k in Members(ClearBit(n, bytes)) <==> k in Members(bytes) - {n}
    {
      BitUpdates(n, bytes, k);
    }
  }

  /** The layout in numbers: eight types a byte, the first one in the top bit. */
  lemma MembersLayout(bytes: seq<bv8>, n: nat)
    ensures n in Members(bytes) <==>
              n < 8 * |bytes| && bytes[n / 8] & [0x80, 0x40, 0x20, 0x10, 0x08, 0x04, 0x02, 0x01][n % 8] != 0
  {
    MaskTable(n);
    MembersAreSetBits(bytes);
  }

  lemma ClearedByTable(b: bv8, n: nat)
    ensures b & !Mask(n) == b & ![0x80, 0x40, 0x20, 0x10, 0x08, 0x04, 0x02, 0x01][n % 8]
  {
    MaskTable(n);
  }

  /** NS_NXT_BIT_SET. */
  method NxtBitSet(n: nat, p: array<bv8>)
    requires n < 8 * p.Length
    modifies p
    ensures forall k | 0 <= k < p.Length && k != n / 8 :: p[k] == old(p[k])
    ensures p[n / 8] == old(p[n / 8]) | [0x80, 0x40, 0x20, 0x10, 0x08, 0x04, 0x02, 0x01][n % 8]
    ensures p[..] == SetBit(n, old(p[..]))
    ensures Members(p[..]) == Members(old(p[..])) + {n}
  {
    MaskTable(n);
    SetAndClearMembers(n, p[..]);
    p[n / NXT_BITS] := p[n / NXT_BITS] | (0x80 >> (n % NXT_BITS));
  }

  /** NS_NXT_BIT_CLEAR. */
  method NxtBitClear(n: nat, p: array<bv8>)
    requires n < 8 * p.Length
    modifies p
    ensures forall k | 0 <= k < p.Length && k != n / 8 :: p[k] == old(p[k])
    ensures p[n / 8] == old(p[n / 8]) & ![0x80, 0x40, 0x20, 0x10, 0x08, 0x04, 0x02, 0x01][n % 8]
    ensures p[..] == ClearBit(n, old(p[..]))
    ensures Members(p[..]) == Members(old(p[..])) - {n}
  {
    ClearedByTable(p[n / 8], n);
    SetAndClearMembers(n, p[..]);
    p[n / NXT_BITS] := p[n / NXT_BITS] & !(0x80 >> (n % NXT_BITS));
  }

  /** NS_NXT_BIT_ISSET: non-zero exactly for the members. */
  method NxtBitIsSet(n: nat, p: array<bv8>) returns (r: bv8)
    requires n < 8 * p.Length
    ensures r == p[n / 8] & [0x80, 0x40, 0x20, 0x10, 0x08, 0x04, 0x02, 0x01][n % 8]
    ensures r != 0 <==> n in Members(p[..])
  {
    MaskTable(n);
    r := p[n / NXT_BITS] & (0x80 >> (n % NXT_BITS));
  }

  datatype BitOp = Set(n: nat) | Clear(n: nat)

  function RunBits(ops: seq<BitOp>, bytes: seq<bv8>): (r: seq<bv8>)
    requires forall i | 0 <= i < |ops| :: ops[i].n < 8 * |bytes|
    ensures |r| == |bytes|
  {
    if ops == [] then bytes
    else
      var before := RunBits(ops[..|ops| - 1], bytes);
      match ops[|ops| - 1]
      case Set(n) => SetBit(n, before)
      case Clear(n) => ClearBit(n, before)
  }

  /** The same operations on a set of numbers. */
  function RunSet(ops: seq<BitOp>, start: set<nat>): set<nat> {
    if ops == [] then start
    else
      var before := RunSet(ops[..|ops| - 1], start);
      match ops[|ops| - 1]
      case Set(n) => before + {n}
      case Clear(n) => before - {n}
  }

  /** Any sequence of SET and CLEAR on a bitmap of any length does to its members
      what the same sequence does to a set; ISSET reads the result. */
  lemma {:induction false} BitmapRefinesSet(ops: seq<BitOp>, bytes: seq<bv8>)
    requires forall i | 0 <= i < |ops| :: ops[i].n < 8 * |bytes|
    ensures Members(RunBits(ops, bytes)) == RunSet(ops, Members(bytes))
    ensures forall n: nat :: IsSet(n, RunBits(ops, bytes)) <==> n in RunSet(ops, Members(bytes))
  {
    if ops != [] {
      BitmapRefinesSet(ops[..|ops| - 1], bytes);
      SetAndClearMembers(ops[|ops| - 1].n, RunBits(ops[..|ops| - 1], bytes));
    }
    MembersAreSetBits(RunBits(ops, bytes));
  }

  // ---- the cursor codec (section 2.3.2 of RFC 1035) ----

  /** The bytes NS_PUT16 and NS_PUT32 store, most significant first. */
  function Bytes16(x: bv16): seq<bv8> {
    [(x >> 8) as bv8, (x & 0xff) as bv8]
  }

  function Bytes32(x: bv32): seq<bv8> {
    [(x >> 24) as bv8, ((x >> 16) & 0xff) as bv8, ((x >> 8) & 0xff) as bv8, (x & 0xff) as bv8]
  }

  /** What NS_GET16 and NS_GET32 assemble. */
  function Read16(b: seq<bv8>): bv16
    requires |b| >= 2
  {
    ((b[0] as bv16) << 8) | (b[1] as bv16)
  }

  function Read32(b: seq<bv8>): bv32
    requires |b| >= 4
  {
    ((b[0] as bv32) << 24) | ((b[1] as bv32) << 16) | ((b[2] as bv32) << 8) | (b[3] as bv32)
  }

  lemma ReadBack16(x: bv16)
    ensures Read16(Bytes16(x)) == x
  {
  }

  lemma ReadBack32(x: bv32)
    ensures Read32(Bytes32(x)) == x
  {
  }

  /** The most significant byte comes first. */
  lemma BigEndian16(x: bv16)
    ensures Bytes16(x)[0] as bv16 * 0x100 + Bytes16(x)[1] as bv16 == x
  {
  }

  lemma BigEndian32(x: bv32)
    ensures var b := Bytes32(x);
            b[0] as bv32 * 0x100_0000 + b[1] as bv32 * 0x1_0000 + b[2] as bv32 * 0x100 + b[3] as bv32 == x
  {
  }

  /** The buffer with `data` stored at `at`. */
  function Store(bytes: seq<bv8>, at: nat, data: seq<bv8>): (r: seq<bv8>)
    requires at + |data| <= |bytes|
    ensures |r| == |bytes| && r[at..at + |data|] == data
    ensures r[..at] == bytes[..at] && r[at + |data|..] == bytes[at + |data|..]
  {
    bytes[..at] + data + bytes[at + |data|..]
  }

  /** NS_PUT16: stores at the cursor and advances it. */
  method NsPut16(s: bv16, buffer: array<bv8>, cp: nat) returns (next: nat)
    requires cp + 2 <= buffer.Length
    modifies buffer
    ensures next == cp + 2 && buffer[..] == Store(old(buffer[..]), cp, Bytes16(s))
    ensures buffer[cp] as bv16 * 0x100 + buffer[cp + 1] as bv16 == s
    ensures forall k | 0 <= k < buffer.Length && !(cp <= k < cp + 2) :: buffer[k] == old(buffer[k])
  {
    BigEndian16(s);
    buffer[cp] := (s >> 8) as bv8;
    buffer[cp + 1] := (s & 0xff) as bv8;
    next := cp + 2;
    assert buffer[..] == old(buffer[..])[..cp] + Bytes16(s) + old(buffer[..])[cp + 2..];
  }

  /** NS_PUT32. */
  method NsPut32(l: bv32, buffer: array<bv8>, cp: nat) returns (next: nat)
    requires cp + 4 <= buffer.Length
    modifies buffer
    ensures next == cp + 4 && buffer[..] == Store(old(buffer[..]), cp, Bytes32(l))
    ensures buffer[cp] as bv32 * 0x100_0000 + buffer[cp + 1] as bv32 * 0x1_0000
            + buffer[cp + 2] as bv32 * 0x100 + buffer[cp + 3] as bv32 == l
    ensures forall k | 0 <= k < buffer.Length && !(cp <= k < cp + 4) :: buffer[k] == old(buffer[k])
  {
    BigEndian32(l);
    buffer[cp] := (l >> 24) as bv8;
    buffer[cp + 1] := ((l >> 16) & 0xff) as bv8;
    buffer[cp + 2] := ((l >> 8) & 0xff) as bv8;
    buffer[cp + 3] := (l & 0xff) as bv8;
    next := cp + 4;
    assert buffer[..] == old(buffer[..])[..cp] + Bytes32(l) + old(buffer[..])[cp + 4..];
  }

  /** NS_GET16: inverts NS_PUT16 at the same cursor. */
  method NsGet16(buffer: array<bv8>, cp: nat) returns (s: bv16, next: nat)
    requires cp + 2 <= buffer.Length
    ensures next == cp + 2 && Bytes16(s) == buffer[cp..next] && s == Read16(buffer[cp..next])
  {
    s := ((buffer[cp] as bv16) << 8) | (buffer[cp + 1] as bv16);
    next := cp + 2;
    WriteBack16(buffer[cp], buffer[cp + 1]);
  }

  /** NS_GET32: inverts NS_PUT32 at the same cursor. */
  method NsGet32(buffer: array<bv8>, cp: nat) returns (l: bv32, next: nat)
    requires cp + 4 <= buffer.Length
    ensures next == cp + 4 && Bytes32(l) == buffer[cp..next] && l == Read32(buffer[cp..next])
  {
    l := ((buffer[cp] as bv32) << 24) | ((buffer[cp + 1] as bv32) << 16)
       | ((buffer[cp + 2] as bv32) << 8) | (buffer[cp + 3] as bv32);
    next := cp + 4;
    WriteBack32(buffer[cp], buffer[cp + 1], buffer[cp + 2], buffer[cp + 3]);
  }

  lemma WriteBack16(a: bv8, b: bv8)
    ensures Bytes16(Read16([a, b])) == [a, b]
  {
  }

  lemma WriteBack32(a: bv8, b: bv8, c: bv8, d: bv8)
    ensures Bytes32(Read32([a, b, c, d])) == [a, b, c, d]
  {
  }

  // ---- sequences of fields ----

  datatype Field = Short(s: bv16) | Long(l: bv32)
  datatype Width = Two | Four

  function WidthOf(f: Field): Width {
    if f.Short? then Two else Four
  }

  function Size(w: Width): nat {
    if w.Two? then 2 else 4
  }

  function FieldBytes(f: Field): (r: seq<bv8>)
    ensures |r| == Size(WidthOf(f))
  {
    match f case Short(s) => Bytes16(s) case Long(l) => Bytes32(l)
  }

  function TotalSize(fields: seq<Field>): nat {
    if fields == [] then 0 else Size(WidthOf(fields[0])) + TotalSize(fields[1..])
  }

  function Shape(fields: seq<Field>): seq<Width> {
    seq(|fields|, i requires 0 <= i < |fields| => WidthOf(fields[i]))
  }

  /** NS_PUT of one field after the other. */
  function PutAll(fields: seq<Field>, bytes: seq<bv8>, cp: nat): (seq<bv8>, nat)
    requires cp + TotalSize(fields) <= |bytes|
    decreases |fields|
  {
    if fields == [] then (bytes, cp)
    else
      var stored := Store(bytes, cp, FieldBytes(fields[0]));
      PutAll(fields[1..], stored, cp + Size(WidthOf(fields[0])))
  }

  /** NS_GET of one field after the other; stops at the end of the buffer. */
  function GetAll(shape: seq<Width>, bytes: seq<bv8>, cp: nat): (seq<Field>, nat)
    decreases |shape|
  {
    if shape == [] || |bytes| < cp + Size(shape[0]) then ([], cp)
    else
      var next := cp + Size(shape[0]);
      var (rest, end) := GetAll(shape[1..], bytes, next);
      ([ReadField(shape[0], bytes[cp..next])] + rest, end)
  }

  /** Two buffers of one length that agree outside a range. */
  ghost predicate SameOutside(a: seq<bv8>, b: seq<bv8>, from: nat, to: nat) {
    |a| == |b| && from <= to <= |a| && a[..from] == b[..from] && a[to..] == b[to..]
  }

  lemma StoreSameOutside(bytes: seq<bv8>, at: nat, data: seq<bv8>)
    requires at + |data| <= |bytes|
    ensures SameOutside(bytes, Store(bytes, at, data), at, at + |data|)
  {
  }

  /** Adjacent changes add up. */
  lemma SameOutsideCompose(a: seq<bv8>, b: seq<bv8>, c: seq<bv8>, from: nat, mid: nat, to: nat)
    requires SameOutside(a, b, from, mid) && SameOutside(b, c, mid, to)
    ensures SameOutside(a, c, from, to)
  {
    PrefixOfEqual(b, c, from, mid);
    SuffixOfEqual(a, b, mid, to);
  }

  lemma PrefixOfEqual(a: seq<bv8>, b: seq<bv8>, n: nat, k: nat)
    requires n <= k <= |a| && |a| == |b| && a[..k] == b[..k]
    ensures a[..n] == b[..n]
  {
    assert a[..n] == a[..k][..n];
  }

  lemma SuffixOfEqual(a: seq<bv8>, b: seq<bv8>, k: nat, n: nat)
    requires k <= n <= |a| && |a| == |b| && a[k..] == b[k..]
    ensures a[n..] == b[n..]
  {
    assert a[n..] == a[k..][n - k..];
  }

  /** A range before the changes is the same slice. */
  lemma SliceBefore(a: seq<bv8>, b: seq<bv8>, from: nat, to: nat, i: nat)
    requires SameOutside(a, b, from, to) && i <= from
    ensures a[i..from] == b[i..from]
  {
    assert a[i..from] == a[..from][i..];
  }

  /** Only the bytes under the fields change. */
  lemma {:induction false} PutAllFrame(fields: seq<Field>, bytes: seq<bv8>, cp: nat)
    requires cp + TotalSize(fields) <= |bytes|
    ensures PutAll(fields, bytes, cp).1 == cp + TotalSize(fields)
    ensures SameOutside(bytes, PutAll(fields, bytes, cp).0, cp, cp + TotalSize(fields))
    decreases |fields|
  {
    if fields != [] {
      var next := cp + Size(WidthOf(fields[0]));
      var first := Store(bytes, cp, FieldBytes(fields[0]));
      StoreSameOutside(bytes, cp, FieldBytes(fields[0]));
      PutAllFrame(fields[1..], first, next);
      SameOutsideCompose(bytes, first, PutAll(fields, bytes, cp).0, cp, next, cp + TotalSize(fields));
    }
  }

  lemma StoredSurvives(bytes: seq<bv8>, data: seq<bv8>, cp: nat, stored: seq<bv8>, end: nat)
    requires cp + |data| <= |bytes| && SameOutside(Store(bytes, cp, data), stored, cp + |data|, end)
    ensures stored[cp..cp + |data|] == data
  {
    SliceBefore(Store(bytes, cp, data), stored, cp + |data|, end, cp);
  }

  /** The first field is still there after the later ones have been written. */
  lemma FirstFieldSurvives(fields: seq<Field>, bytes: seq<bv8>, cp: nat)
    requires fields != [] && cp + TotalSize(fields) <= |bytes|
    ensures var stored := PutAll(fields, bytes, cp).0;
            var next := cp + Size(WidthOf(fields[0]));
            next <= |stored| && stored[cp..next] == FieldBytes(fields[0])
  {
    var data := FieldBytes(fields[0]);
    var next := cp + |data|;
    PutAllFrame(fields[1..], Store(bytes, cp, data), next);
    StoredSurvives(bytes, data, cp, PutAll(fields, bytes, cp).0, next + TotalSize(fields[1..]));
  }

  /** What NS_GET makes of the bytes of a field. */
  function ReadField(w: Width, b: seq<bv8>): Field
    requires |b| == Size(w)
  {
    if w.Two? then Short(Read16(b)) else Long(Read32(b))
  }

  lemma FieldReadsBack(f: Field)
    ensures ReadField(WidthOf(f), FieldBytes(f)) == f
  {
    match f {
      case Short(s) => ReadBack16(s);
      case Long(l) => ReadBack32(l);
    }
  }

  lemma GetAllStep(shape: seq<Width>, bytes: seq<bv8>, cp: nat, f: Field, rest: seq<Field>, end: nat)
    requires shape != [] && cp + Size(shape[0]) <= |bytes|
    requires ReadField(shape[0], bytes[cp..cp + Size(shape[0])]) == f
    requires GetAll(shape[1..], bytes, cp + Size(shape[0])) == (rest, end)
    ensures GetAll(shape, bytes, cp) == ([f] + rest, end)
  {
  }

  lemma ShapeTail(fields: seq<Field>)
    requires fields != []
    ensures Shape(fields) != [] && Shape(fields)[0] == WidthOf(fields[0]) && Shape(fields)[1..] == Shape(fields[1..])
    ensures fields == [fields[0]] + fields[1..]
  {
  }

  lemma {:induction false} FieldsReadBack(fields: seq<Field>, bytes: seq<bv8>, cp: nat)
    requires cp + TotalSize(fields) <= |bytes|
    ensures GetAll(Shape(fields), PutAll(fields, bytes, cp).0, cp) == (fields, PutAll(fields, bytes, cp).1)
    decreases |fields|
  {
    if fields != [] {
      var f := fields[0];
      var (stored, end) := PutAll(fields, bytes, cp);
      ShapeTail(fields);
      FirstFieldSurvives(fields, bytes, cp);
      FieldReadsBack(f);
      FieldsReadBack(fields[1..], Store(bytes, cp, FieldBytes(f)), cp + Size(WidthOf(f)));
      GetAllStep(Shape(fields), stored, cp, f, fields[1..], end);
    }
  }

  /** Fields written in any mixture of widths are read back unchanged in the same
      widths, the cursor ends at the same place, and no other byte is touched. */
  lemma CodecRoundTrip(fields: seq<Field>, bytes: seq<bv8>, cp: nat)
    requires cp + TotalSize(fields) <= |bytes|
    ensures var (stored, end) := PutAll(fields, bytes, cp);
            && GetAll(Shape(fields), stored, cp) == (fields, end)
            && end == cp + TotalSize(fields) && |stored| == |bytes|
            && stored[..cp] == bytes[..cp] && stored[end..] == bytes[end..]
  {
    PutAllFrame(fields, bytes, cp);
    FieldsReadBack(fields, bytes, cp);
  }

  // ---- bits/byteswap.h ----

  function Bswap16(x: bv16): bv16 {
    (x >> 8) | (x << 8)
  }

  /** (high << 16) | low, and its 64-bit counterpart. */
  function Join16(high: bv16, low: bv16): bv32 {
    ((high as bv32) << 16) | (low as bv32)
  }

  function Join32(high: bv32, low: bv32): bv64 {
    ((high as bv64) << 32) | (low as bv64)
  }

  function Bswap32(x: bv32): bv32 {
    Join16(Bswap16((x & 0xffff) as bv16), Bswap16((x >> 16) as bv16))
  }

  function Bswap64(x: bv64): bv64 {
    Join32(Bswap32((x & 0xffff_ffff) as bv32), Bswap32((x >> 32) as bv32))
  }

  lemma JoinSplit16(high: bv16, low: bv16, x: bv32)
    ensures (Join16(high, low) & 0xffff) as bv16 == low && (Join16(high, low) >> 16) as bv16 == high
    ensures Join16((x >> 16) as bv16, (x & 0xffff) as bv16) == x
  {
  }

  lemma JoinSplit32(high: bv32, low: bv32, x: bv64)
    ensures (Join32(high, low) & 0xffff_ffff) as bv32 == low && (Join32(high, low) >> 32) as bv32 == high
    ensures Join32((x >> 32) as bv32, (x & 0xffff_ffff) as bv32) == x
  {
  }

  /** A little-endian store. */
  function Little16(x: bv16): seq<bv8> {
    [(x & 0xff) as bv8, (x >> 8) as bv8]
  }

  function Little32(x: bv32): seq<bv8> {
    Little16((x & 0xffff) as bv16) + Little16((x >> 16) as bv16)
  }

  function Little64(x: bv64): seq<bv8> {
    Little32((x & 0xffff_ffff) as bv32) + Little32((x >> 32) as bv32)
  }

  /** NS_PUT stores the bytes of a little-endian store of the swapped value. */
  lemma PutIsSwappedStore(s: bv16, l: bv32)
    ensures Bytes16(s) == Little16(Bswap16(s))
    ensures Bytes32(l) == Little32(Bswap32(l))
  {
  }

  function Reversed(s: seq<bv8>): seq<bv8> {
    seq(|s|, i requires 0 <= i < |s| => s[|s| - 1 - i])
  }

  /** The least significant byte comes first. */
  lemma LittleEndian64(x: bv64)
    ensures var b := Little64(x);
            && b[0] == (x & 0xff) as bv8 && b[1] == ((x >> 8) & 0xff) as bv8
            && b[2] == ((x >> 16) & 0xff) as bv8 && b[3] == ((x >> 24) & 0xff) as bv8
            && b[4] == ((x >> 32) & 0xff) as bv8 && b[5] == ((x >> 40) & 0xff) as bv8
            && b[6] == ((x >> 48) & 0xff) as bv8 && b[7] == ((x >> 56) & 0xff) as bv8
  {
  }

  lemma Reverses32(l: bv32)
    ensures Little32(Bswap32(l)) == Reversed(Little32(l))
  {
    PutIsSwappedStore(0, l);
  }

  lemma ReversedConcat(a: seq<bv8>, b: seq<bv8>)
    ensures Reversed(a + b) == Reversed(b) + Reversed(a)
  {
  }

  lemma Little64OfHalves(high: bv32, low: bv32)
    ensures Little64(Join32(high, low)) == Little32(low) + Little32(high)
  {
    JoinSplit32(high, low, 0);
  }

  lemma Little64OfWord(x: bv64, high: bv32, low: bv32)
    requires high == (x >> 32) as bv32 && low == (x & 0xffff_ffff) as bv32
    ensures Little64(x) == Little32(low) + Little32(high)
  {
  }

  /** The 64-bit swap, built from 16-bit ones, reverses all eight bytes. */
  lemma Bswap64Reverses(x: bv64)
    ensures Little64(Bswap64(x)) == Reversed(Little64(x))
  {
    var high, low := (x >> 32) as bv32, (x & 0xffff_ffff) as bv32;
    var a, b := Little32(low), Little32(high);
    calc {
      Little64(Bswap64(x));
      { Little64OfHalves(Bswap32(low), Bswap32(high)); }
      Little32(Bswap32(high)) + Little32(Bswap32(low));
      { Reverses32(high); Reverses32(low); }
      Reversed(b) + Reversed(a);
      { ReversedConcat(a, b); }
      Reversed(a + b);
      { Little64OfWord(x, high, low); }
      Reversed(Little64(x));
    }
  }

  lemma Swap16Involution(s: bv16)
    ensures Bswap16(Bswap16(s)) == s
  {
  }

  lemma Swap32Involution(l: bv32)
    ensures Bswap32(Bswap32(l)) == l
  {
    var high, low := (l >> 16) as bv16, (l & 0xffff) as bv16;
    JoinSplit16(Bswap16(low), Bswap16(high), l);
    Swap16Involution(high);
    Swap16Involution(low);
  }

  /** Swapping twice restores the value, at every width. */
  lemma SwapsAreInvolutions(s: bv16, l: bv32, x: bv64)
    ensures Bswap16(Bswap16(s)) == s && Bswap32(Bswap32(l)) == l && Bswap64(Bswap64(x)) == x
  {
    var high, low := (x >> 32) as bv32, (x & 0xffff_ffff) as bv32;
    Swap16Involution(s);
    Swap32Involution(l);
    Swap32Involution(high);
    Swap32Involution(low);
    JoinSplit32(Bswap32(low), Bswap32(high), x);
  }
}
