/**
 The typed writers and readers of the buffer (Helens/bytearray.cc): fixed-width integers in the
 buffer's byte order, varints, zigzag integers and length-prefixed strings.
 */
module ByteCodec {
  import opened Options
  import opened Arith
  import opened Bits
  import opened Chunks
  import opened Endian
  import opened ByteBuffer
  import V = Varint

  function OrderOf(littleEndian: bool): Order { if littleEndian then Little else Big }

  /** The bytes that can still be read. */
  ghost function Ahead(b: ByteArray): seq<Byte>
    requires b.position <= b.size <= |b.bytes|
    reads b
  {
    b.bytes[b.position..b.size]
  }

  lemma AheadTake(s: seq<Byte>, p: nat, e: nat, u: nat, n: nat)
    requires p <= e <= |s| && p + u + n <= e
    ensures s[p..e][u..u + n] == s[p + u..p + u + n]
    ensures s[p + u..e][..n] == s[p + u..p + u + n]
  {
    assert s[p..e] == s[p..p + (e - p)];
    SliceSlice(s, p, e - p, u, n);
  }

  // ----- fixed width -----

  lemma FieldDigits(littleEndian: bool, v: nat, n: nat)
    ensures var s := Store(OrderOf(littleEndian), v, n);
      forall i :: 0 <= i < n ==> s[i] == v / Pow256(if littleEndian then i else n - 1 - i) % 256
  {
    hide Store, Pow256;
    forall i | 0 <= i < n
      ensures Store(OrderOf(littleEndian), v, n)[i] == v / Pow256(if littleEndian then i else n - 1 - i) % 256
    {
      StoredDigit(OrderOf(littleEndian), v, n, i);
    }
  }

  /** `v` is the number whose base-256 digits are the bytes of `s`, the first one lowest in a little-endian buffer. */
  ghost predicate Spells(littleEndian: bool, s: seq<Byte>, v: nat) {
    && v < Pow256(|s|)
    && forall i :: 0 <= i < |s| ==> s[i] == v / Pow256(if littleEndian then i else |s| - 1 - i) % 256
  }

  lemma LoadSpells(littleEndian: bool, s: seq<Byte>)
    ensures Spells(littleEndian, s, Load(OrderOf(littleEndian), s))
  {
    hide Load, Pow256;
    forall i | 0 <= i < |s|
      ensures s[i] == Load(OrderOf(littleEndian), s) / Pow256(if littleEndian then i else |s| - 1 - i) % 256
    {
      LoadedDigit(OrderOf(littleEndian), s, i);
    }
  }

  method WriteFixed(b: ByteArray, host: Order, v: nat, n: nat)
    requires b.Valid() && v < Pow256(n)
    modifies b.footprint
    ensures b.Valid() && fresh(b.footprint - old(b.footprint)) && b.footprint >= old(b.footprint)
    ensures b.position == old(b.position) + n && b.size == Max(old(b.size), b.position)
    ensures b.littleEndian == old(b.littleEndian)
    ensures WroteAt(old(b.bytes), b.bytes, old(b.position), Store(OrderOf(b.littleEndian), v, n))
    ensures b.position <= |b.bytes| && Spells(b.littleEndian, b.bytes[old(b.position)..b.position], v)
  {
    hide Store, Pow256, WriteImage;
    HostIndependent(host, OrderOf(b.littleEndian), v, n);
    FieldDigits(b.littleEndian, v, n);
    b.Write(WriteImage(host, OrderOf(b.littleEndian), v, n));
  }

  method ReadFixed(b: ByteArray, host: Order, n: nat) returns (r: Result<nat>)
    requires b.Valid() && n > 0
    modifies b`position, b`cur
    ensures b.Valid()
    ensures r.Ok? <==> n <= |old(Ahead(b))|
    ensures r.Ok? ==> b.position == old(b.position) + n
    ensures r.Ok? ==> r.value == Load(OrderOf(b.littleEndian), old(Ahead(b))[..n])
    ensures r.Ok? ==> Spells(b.littleEndian, old(Ahead(b))[..n], r.value)
    ensures r.OutOfRange? ==> b.position == old(b.position)
  {
    hide ByteArray.Linked, ByteArray.Holds, ByteArray.Owns, ByteArray.CursorAt, ReadImage, Load, Spells;
    var bytes := b.Read(n);
    if bytes.OutOfRange? { return OutOfRange; }
    HostIndependentRead(host, OrderOf(b.littleEndian), bytes.value);
    LoadSpells(b.littleEndian, bytes.value);
    AheadTake(b.bytes, old(b.position), b.size, 0, n);
    return Ok(ReadImage(host, OrderOf(b.littleEndian), bytes.value));
  }

  // ----- varints -----

  /** Bytes a varint of `bits` bits may take: 5 for 32 bits, 10 for 64. */
  function MaxBytes(bits: nat): (r: nat)
    ensures bits == 32 ==> r == 5
    ensures bits == 64 ==> r == 10
  {
    (bits + 6) / 7
  }

  /** One more than the largest unsigned value of the width. */
  function Limit(bits: nat): (r: nat)
    ensures r > 0
  {
    if bits == 32 then 0x1_0000_0000 else 0x1_0000_0000_0000_0000
  }

  lemma LimitIsPow2(bits: nat)
    requires bits == 32 || bits == 64
    ensures Limit(bits) == Pow2(bits)
  {
    hide Pow2;
    Pow2Sixteen();
    Pow2Add(16, 16);
    Pow2Add(32, 32);
  }

  lemma Pow2Sixteen()
    ensures Pow2(16) == 0x1_0000
  {
    assert Pow2(4) == 16 && Pow2(8) == 256 && Pow2(12) == 4096;
  }

  lemma FitsMaxBytes(v: nat, bits: nat)
    requires bits == 32 || bits == 64
    requires v < Limit(bits)
    ensures |V.Encode(v)| <= MaxBytes(bits)
  {
    hide Pow2;
    var k := MaxBytes(bits);
    LimitIsPow2(bits);
    Pow2Add(bits, 7 * k - bits);
    assert Pow2(7 * k) == Pow2(bits) * Pow2(7 * k - bits);
    V.MulMono(Pow2(bits), 1, Pow2(7 * k - bits));
    V.EncodeLength(v, k);
  }

  method WriteUint(b: ByteArray, v: nat, bits: nat)
    requires b.Valid() && (bits == 32 || bits == 64) && v < Limit(bits)
    modifies b.footprint
    ensures b.Valid() && fresh(b.footprint - old(b.footprint)) && b.footprint >= old(b.footprint)
    ensures b.position == old(b.position) + |V.Encode(v)| && b.size == Max(old(b.size), b.position)
    ensures b.littleEndian == old(b.littleEndian)
    ensures WroteAt(old(b.bytes), b.bytes, old(b.position), V.Encode(v))
  {
    hide ByteArray.Linked, ByteArray.Holds, ByteArray.Owns, ByteArray.CursorAt, Pow2, V.Encode;
    FitsMaxBytes(v, bits);
    var tmp := new Byte[MaxBytes(bits)];
    var i := EncodeInto(tmp, v);
    b.Write(tmp[..i]);
  }

  /** The encoding loop, into the fixed scratch array. */
  method EncodeInto(tmp: array<Byte>, v: nat) returns (i: nat)
    requires |V.Encode(v)| <= tmp.Length
    modifies tmp
    ensures i <= tmp.Length && tmp[..i] == V.Encode(v)
  {
    var value := v;
    i := 0;
    while value >= 0x80
      invariant 0 <= value && i + |V.Encode(value)| <= tmp.Length
      invariant tmp[..i] + V.Encode(value) == V.Encode(v)
    {
      ghost var done := tmp[..i];
      tmp[i] := value % 0x80 + 0x80;
      assert tmp[..i + 1] == done + [value % 0x80 + 0x80];
      i := i + 1;
      value := value / 0x80;
    }
    ghost var done := tmp[..i];
    tmp[i] := value;
    i := i + 1;
    assert tmp[..i] == done + [value];
  }

  /**
   Reads byte by byte. When the bytes run out in the middle, everything up to the end of the data
   has been consumed.
   */
  method ReadUint(b: ByteArray, bits: nat) returns (r: Result<nat>)
    requires b.Valid() && (bits == 32 || bits == 64)
    modifies b`position, b`cur
    ensures b.Valid()
    ensures match V.Parse(old(Ahead(b)), MaxBytes(bits))
      case Some(p) => r == Ok(p.value % Limit(bits)) && b.position == old(b.position) + p.used
      case None => r.OutOfRange? && b.position == b.size
  {
    hide ByteArray.Linked, ByteArray.Holds, ByteArray.Owns, ByteArray.CursorAt, Or, V.Parse, V.Shl, Limit, Reading;
    ghost var s := Ahead(b);
    var k := MaxBytes(bits);
    var result: nat, i: nat := 0, 0;
    ghost var low: nat := 0;
    StartReading(s, bits);
    while i < k
      invariant i <= k && i <= |s| && b.Valid() && b.position == old(b.position) + i
      invariant Reading(s, bits, i, low, result)
    {
      var byte := b.Read(1);
      if byte.OutOfRange? {
        RunOut(s, bits, i, low, result);
        return OutOfRange;
      }
      assert byte.value[0] == s[i];
      var d := byte.value[0] % 0x80;
      if byte.value[0] < 0x80 {
        LastByte(s, bits, i, low, result);
        return Ok(Or(V.Shl(d, 7 * i, bits), result));
      }
      low := MoreBytes(s, bits, i, low, result);
      result := Or(V.Shl(d, 7 * i, bits), result);
      i := i + 1;
    }
    AllBytes(s, bits, i, low, result);
    return Ok(result);
  }

  /** `i` bytes of `s` have been read; they are worth `low`, and `result` keeps that modulo the width. */
  ghost predicate Reading(s: seq<Byte>, bits: nat, i: nat, low: nat, result: nat) {
    var k := MaxBytes(bits);
    && (bits == 32 || bits == 64) && i <= k && i <= |s|
    && low < Pow2(7 * i) && result == low % Pow2(bits)
    && V.Parse(s, k) == V.Extend(low, i, V.Parse(s[i..], k - i))
  }

  lemma StartReading(s: seq<Byte>, bits: nat)
    requires bits == 32 || bits == 64
    ensures Reading(s, bits, 0, 0, 0)
  {
    hide Pow2, V.Parse, V.Extend;
    V.ExtendNothing(V.Parse(s, MaxBytes(bits)));
    V.Pow2SevenOne();
    SmallMod(0, Pow2(bits));
    assert s[0..] == s;
  }

  lemma RunOut(s: seq<Byte>, bits: nat, i: nat, low: nat, result: nat)
    requires Reading(s, bits, i, low, result) && i < MaxBytes(bits) && i == |s|
    ensures V.Parse(s, MaxBytes(bits)) == None
  {
    hide Pow2;
  }

  /** A byte without the top bit ends the number. */
  lemma LastByte(s: seq<Byte>, bits: nat, i: nat, low: nat, result: nat)
    requires Reading(s, bits, i, low, result) && i < MaxBytes(bits) && i < |s| && s[i] < 0x80
    ensures var r := V.Parse(s, MaxBytes(bits));
      && r.Some? && r.value.used == i + 1
      && Or(V.Shl(s[i] % 0x80, 7 * i, bits), result) == r.value.value % Limit(bits)
  {
    hide Pow2, Or, V.Shl, Limit;
    LimitIsPow2(bits);
    TakeBits(low, i, s[i], bits);
    assert V.Parse(s[i..], MaxBytes(bits) - i) == Some(V.Parsed(s[i], 1));
    SmallMod(s[i], 0x80);
  }

  lemma MoreBytes(s: seq<Byte>, bits: nat, i: nat, low: nat, result: nat) returns (next: nat)
    requires Reading(s, bits, i, low, result) && i < MaxBytes(bits) && i < |s| && s[i] >= 0x80
    ensures Reading(s, bits, i + 1, next, Or(V.Shl(s[i] % 0x80, 7 * i, bits), result))
  {
    hide Pow2, Or, V.Shl, V.Parse, V.Extend;
    TakeBits(low, i, s[i] % 0x80, bits);
    TakeByte(low, i, s, MaxBytes(bits));
    next := low + Pow2(7 * i) * (s[i] % 0x80);
  }

  lemma AllBytes(s: seq<Byte>, bits: nat, i: nat, low: nat, result: nat)
    requires Reading(s, bits, i, low, result) && i == MaxBytes(bits)
    ensures var r := V.Parse(s, MaxBytes(bits));
      r.Some? && r.value.used == i && result == r.value.value % Limit(bits)
  {
    hide Pow2, Limit;
    LimitIsPow2(bits);
    assert V.Parse(s[i..], 0) == Some(V.Parsed(0, 0));
  }

  lemma TakeBits(low: nat, i: nat, d: nat, bits: nat)
    requires low < Pow2(7 * i) && 7 * i <= bits && d < 0x80
    ensures Or(V.Shl(d, 7 * i, bits), low % Pow2(bits)) == (low + Pow2(7 * i) * d) % Pow2(bits)
    ensures low + Pow2(7 * i) * d < Pow2(7 * (i + 1))
  {
    hide Pow2, Or, V.Shl;
    Pow2Grows(7 * i, bits);
    SmallMod(low, Pow2(bits));
    V.OrShifted(d, low, 7 * i, bits);
    V.LowGrows(low, i, d);
  }

  lemma TakeByte(low: nat, i: nat, s: seq<Byte>, k: nat)
    requires i < k && i < |s| && s[i] >= 0x80
    ensures V.Extend(low, i, V.Parse(s[i..], k - i))
         == V.Extend(low + Pow2(7 * i) * (s[i] % 0x80), i + 1, V.Parse(s[i + 1..], k - (i + 1)))
  {
    hide Pow2, V.Extend, V.Parse;
    assert s[i..][0] == s[i] && s[i..][1..] == s[i + 1..];
    V.ExtendMore(low, i, s[i..], k - i);
  }

  method WriteInt(b: ByteArray, v: int, bits: nat)
    requires b.Valid() && (bits == 32 || bits == 64) && V.Signed(v, bits)
    modifies b.footprint
    ensures b.Valid() && fresh(b.footprint - old(b.footprint)) && b.footprint >= old(b.footprint)
    ensures b.position == old(b.position) + |V.Encode(V.ZigZag(v, bits))| && b.size == Max(old(b.size), b.position)
    ensures b.littleEndian == old(b.littleEndian)
    ensures WroteAt(old(b.bytes), b.bytes, old(b.position), V.Encode(V.ZigZag(v, bits)))
  {
    hide Pow2;
    LimitIsPow2(bits);
    WriteUint(b, V.ZigZag(v, bits), bits);
  }

  /** The signed integer behind an unsigned varint. */
  function SignedOf(u: nat, bits: nat): int
    requires bits == 32 || bits == 64
  {
    LimitIsPow2(bits);
    V.UnZigZag(u % Limit(bits), bits)
  }

  method ReadInt(b: ByteArray, bits: nat) returns (r: Result<int>)
    requires b.Valid() && (bits == 32 || bits == 64)
    modifies b`position, b`cur
    ensures b.Valid()
    ensures match V.Parse(old(Ahead(b)), MaxBytes(bits))
      case Some(p) => r == Ok(SignedOf(p.value, bits)) && b.position == old(b.position) + p.used
      case None => r.OutOfRange? && b.position == b.size
  {
    hide Pow2, V.Parse, V.UnZigZag;
    LimitIsPow2(bits);
    var u := ReadUint(b, bits);
    match u
    case OutOfRange => return OutOfRange;
    case Ok(v) => return Ok(V.UnZigZag(v, bits));
  }

  // ----- strings -----

  /** A string behind an n-byte length; the length field keeps the length modulo its width. */
  function StringImage(order: Order, s: seq<Byte>, n: nat): seq<Byte> {
    Store(order, FieldLength(|s|, n), n) + s
  }

  /** A length cut to an n-byte field. */
  function FieldLength(len: nat, n: nat): (r: nat)
    ensures r <= len && r < Pow256(n)
    ensures r == len <==> len < Pow256(n)
  {
    ModAtMost(len, Pow256(n));
    len % Pow256(n)
  }

  method WriteStringFixed(b: ByteArray, host: Order, s: seq<Byte>, n: nat)
    requires b.Valid()
    modifies b.footprint
    ensures b.Valid() && fresh(b.footprint - old(b.footprint)) && b.footprint >= old(b.footprint)
    ensures b.position == old(b.position) + n + |s| && b.size == Max(old(b.size), b.position)
    ensures b.littleEndian == old(b.littleEndian)
    ensures WroteAt(old(b.bytes), b.bytes, old(b.position), StringImage(OrderOf(b.littleEndian), s, n))
    ensures b.position <= |b.bytes| && b.bytes[old(b.position) + n..b.position] == s
    ensures Spells(b.littleEndian, b.bytes[old(b.position)..old(b.position) + n], |s| % Pow256(n))
  {
    hide WroteAt, Store, FieldLength, Pow256, Spells;
    WriteFixed(b, host, FieldLength(|s|, n), n);
    ghost var mid, field := b.bytes, Store(OrderOf(b.littleEndian), FieldLength(|s|, n), n);
    WroteLength(old(b.bytes), mid, old(b.position), field);
    b.Write(s);
    WroteTwice(old(b.bytes), mid, b.bytes, old(b.position), field, s);
    StringParts(b.littleEndian, s, n, old(b.bytes), b.bytes, old(b.position));
  }

  /** Where a string and its length are after writing them. */
  lemma StringParts(littleEndian: bool, s: seq<Byte>, n: nat, before: seq<Byte>, after: seq<Byte>, p: nat)
    requires WroteAt(before, after, p, StringImage(OrderOf(littleEndian), s, n))
    ensures p + n + |s| <= |after| && after[p + n..p + n + |s|] == s
    ensures Spells(littleEndian, after[p..p + n], |s| % Pow256(n))
  {
    hide Store, Pow256;
    var len := FieldLength(|s|, n);
    var field := Store(OrderOf(littleEndian), len, n);
    FieldDigits(littleEndian, len, n);
    var image := after[p..p + |field + s|];
    assert image == field + s;
    assert after[p..p + n] == image[..n] == field;
    assert after[p + n..p + n + |s|] == image[n..] == s;
  }

  lemma WroteLength(before: seq<Byte>, after: seq<Byte>, p: nat, data: seq<Byte>)
    requires WroteAt(before, after, p, data)
    ensures p + |data| <= |after| && |before| <= |after|
  {}

  method WriteStringVint(b: ByteArray, s: seq<Byte>)
    requires b.Valid() && |s| < Limit(64)
    modifies b.footprint
    ensures b.Valid() && fresh(b.footprint - old(b.footprint)) && b.footprint >= old(b.footprint)
    ensures b.position == old(b.position) + |V.Encode(|s|)| + |s| && b.size == Max(old(b.size), b.position)
    ensures b.littleEndian == old(b.littleEndian)
    ensures WroteAt(old(b.bytes), b.bytes, old(b.position), V.Encode(|s|) + s)
  {
    hide WroteAt, Pow2, V.Encode;
    WriteUint(b, |s|, 64);
    ghost var mid := b.bytes;
    WroteLength(old(b.bytes), mid, old(b.position), V.Encode(|s|));
    b.Write(s);
    WroteTwice(old(b.bytes), mid, b.bytes, old(b.position), V.Encode(|s|), s);
  }

  /** The string reader after its length: `n` more bytes. */
  method ReadBody(b: ByteArray, n: nat) returns (r: Result<seq<Byte>>)
    requires b.Valid() && (n > 0 || b.position < b.capacity)
    modifies b`position, b`cur
    ensures b.Valid()
    ensures r.Ok? <==> n <= |old(Ahead(b))|
    ensures r.Ok? ==> b.position == old(b.position) + n && r.value == old(Ahead(b))[..n]
    ensures r.OutOfRange? ==> b.position == old(b.position)
  {
    hide ByteArray.Linked, ByteArray.Holds, ByteArray.Owns, ByteArray.CursorAt;
    r := b.Read(n);
    if r.Ok? { AheadTake(b.bytes, old(b.position), b.size, 0, n); }
  }

  method ReadStringVint(b: ByteArray) returns (r: Result<seq<Byte>>)
    requires b.Valid()
    requires match V.Parse(Ahead(b), MaxBytes(64))
      case Some(p) => p.value % Limit(64) == 0 ==> b.position + p.used < b.capacity
      case None => true
    modifies b`position, b`cur
    ensures b.Valid()
    ensures match V.Parse(old(Ahead(b)), MaxBytes(64))
      case None => r.OutOfRange?
      case Some(p) =>
        var n := p.value % Limit(64);
        if p.used + n <= |old(Ahead(b))|
        then r == Ok(old(Ahead(b))[p.used..p.used + n]) && b.position == old(b.position) + p.used + n
        else r.OutOfRange?
  {
    hide ByteArray.Linked, ByteArray.Holds, ByteArray.Owns, ByteArray.CursorAt, Pow2, V.Parse;
    var n := ReadUint(b, 64);
    match n
    case OutOfRange => return OutOfRange;
    case Ok(len) =>
      r := ReadBody(b, len);
      if r.Ok? { AheadTake(b.bytes, old(b.position), b.size, b.position - len - old(b.position), len); }
  }

  method ReadStringFixed(b: ByteArray, host: Order, n: nat) returns (r: Result<seq<Byte>>)
    requires b.Valid() && n > 0
    requires n <= |Ahead(b)| && Load(OrderOf(b.littleEndian), Ahead(b)[..n]) == 0 ==> b.position + n < b.capacity
    modifies b`position, b`cur
    ensures b.Valid()
    ensures n > |old(Ahead(b))| ==> r.OutOfRange? && b.position == old(b.position)
    ensures n <= |old(Ahead(b))| ==>
      var len := Load(OrderOf(b.littleEndian), old(Ahead(b))[..n]);
      if n + len <= |old(Ahead(b))|
      then r == Ok(old(Ahead(b))[n..n + len]) && b.position == old(b.position) + n + len
      else r.OutOfRange?
    ensures r.Ok? ==> n <= |old(Ahead(b))| && Spells(b.littleEndian, old(Ahead(b))[..n], |r.value|)
  {
    hide ByteArray.Linked, ByteArray.Holds, ByteArray.Owns, ByteArray.CursorAt, Load, Spells;
    var len := ReadFixed(b, host, n);
    match len
    case OutOfRange => return OutOfRange;
    case Ok(m) =>
      r := ReadBody(b, m);
      if r.Ok? { AheadTake(b.bytes, old(b.position), b.size, n, m); }
  }

  // ----- reading after writing -----

  /** What a reader sees after rewinding to where something was written. */
  lemma AheadOfWritten(before: seq<Byte>, after: seq<Byte>, p: nat, data: seq<Byte>, e: nat)
    requires WroteAt(before, after, p, data) && p + |data| <= e <= |after|
    ensures after[p..e] == data + after[p + |data|..e]
  {
    assert after[p..e] == after[p..p + |data|] + after[p + |data|..e];
  }

  /** Any unsigned value, at any position of any buffer, whatever lies behind it. */
  method UintRoundTrip(b: ByteArray, v: nat, bits: nat) returns (r: Result<nat>)
    requires b.Valid() && (bits == 32 || bits == 64) && v < Limit(bits)
    modifies b.footprint
    ensures b.Valid() && r == Ok(v)
    ensures b.position == old(b.position) + |V.Encode(v)| <= old(b.position) + MaxBytes(bits)
  {
    hide ByteArray.Linked, ByteArray.Holds, ByteArray.Owns, ByteArray.CursorAt, WroteAt, V.Encode, V.Parse, Limit;
    var start := b.position;
    WriteUint(b, v, bits);
    WroteLength(old(b.bytes), b.bytes, start, V.Encode(v));
    var moved := b.SetPosition(start);
    AheadOfWritten(old(b.bytes), b.bytes, start, V.Encode(v), b.size);
    FitsMaxBytes(v, bits);
    V.RoundTrip(v, b.bytes[start + |V.Encode(v)|..b.size], MaxBytes(bits));
    SmallMod(v, Limit(bits));
    r := ReadUint(b, bits);
  }

  /** Any signed value, through zigzag. */
  method IntRoundTrip(b: ByteArray, v: int, bits: nat) returns (r: Result<int>)
    requires b.Valid() && (bits == 32 || bits == 64) && V.Signed(v, bits)
    modifies b.footprint
    ensures b.Valid() && r == Ok(v)
    ensures b.position == old(b.position) + |V.Encode(V.ZigZag(v, bits))| <= old(b.position) + MaxBytes(bits)
  {
    hide ByteArray.Linked, ByteArray.Holds, ByteArray.Owns, ByteArray.CursorAt, WroteAt, V.Encode, V.Parse, Limit, V.ZigZag, V.UnZigZag, Pow2, V.Signed;
    var start := b.position;
    LimitIsPow2(bits);
    ghost var u := V.ZigZag(v, bits);
    WriteInt(b, v, bits);
    WroteLength(old(b.bytes), b.bytes, start, V.Encode(u));
    var moved := b.SetPosition(start);
    AheadOfWritten(old(b.bytes), b.bytes, start, V.Encode(u), b.size);
    FitsMaxBytes(u, bits);
    V.RoundTrip(u, b.bytes[start + |V.Encode(u)|..b.size], MaxBytes(bits));
    SmallMod(u, Limit(bits));
    V.ZigZagRoundTrip(v, bits);
    r := ReadInt(b, bits);
  }

  /** The string a reader of an n-byte length takes from the bytes in front of it. */
  function FixedString(order: Order, s: seq<Byte>, n: nat): Option<seq<Byte>> {
    if |s| < n then None
    else
      var len := Load(order, s[..n]);
      if n + len <= |s| then Some(s[n..n + len]) else None
  }

  /**
   A string survives its fixed-width length exactly when the length fits the field; a longer one is
   cut to its length modulo the field's range.
   */
  lemma FixedStringExact(order: Order, s: seq<Byte>, n: nat, rest: seq<Byte>)
    ensures FixedString(order, StringImage(order, s, n) + rest, n) == Some(s[..FieldLength(|s|, n)])
    ensures FixedString(order, StringImage(order, s, n) + rest, n) == Some(s) <==> |s| < Pow256(n)
  {
    hide Store, Load, Pow256, FieldLength;
    StringAhead(order, s, n, rest);
    assert s[..|s|] == s;
  }

  /**
   A string written with a fixed-width length and read again: it comes back cut to the stored length,
   so whole iff its length fits the field. It cannot be read when nothing is to be read and the field
   ends at the capacity: there the source follows a null cursor.
   */
  method FixedStringRoundTrip(b: ByteArray, host: Order, s: seq<Byte>, n: nat) returns (parsed: bool, r: Result<seq<Byte>>)
    requires b.Valid() && n > 0
    modifies b.footprint
    ensures b.Valid()
    ensures !parsed <==> s == [] && old(b.position) + n == b.capacity
    ensures parsed ==> r == Ok(s[..FieldLength(|s|, n)]) && (r == Ok(s) <==> |s| < Pow256(n))
    ensures !parsed ==> b.position == old(b.position) + n && b.cur == null
  {
    hide ByteArray.Linked, ByteArray.Holds, ByteArray.Owns, ByteArray.CursorAt, WroteAt, Load, Store, FieldLength, Pow256;
    var start := b.position;
    WriteStringFixed(b, host, s, n);
    var atEnd := start + n == b.capacity;
    ghost var image := StringImage(OrderOf(b.littleEndian), s, n);
    WroteLength(old(b.bytes), b.bytes, start, image);
    var moved := b.SetPosition(start);
    AheadOfWritten(old(b.bytes), b.bytes, start, image, b.size);
    StringAhead(OrderOf(b.littleEndian), s, n, b.bytes[start + |image|..b.size]);
    if s == [] && atEnd {
      var len := ReadFixed(b, host, n);
      b.CursorAtEnd();
      return false, OutOfRange;
    }
    r := ReadStringFixed(b, host, n);
    parsed := true;
    assert s[..|s|] == s;
  }

  lemma StringAhead(order: Order, s: seq<Byte>, n: nat, rest: seq<Byte>)
    ensures var all := StringImage(order, s, n) + rest; var len := FieldLength(|s|, n);
      |all| >= n + |s| && Load(order, all[..n]) == len && all[n..n + len] == s[..len]
  {
    hide Store, Load, Pow256, FieldLength;
    var len := FieldLength(|s|, n);
    var field := Store(order, len, n);
    var all := StringImage(order, s, n) + rest;
    assert all == field + (s + rest);
    assert all[..n] == field;
    StoreLoad(order, len, n);
    assert all[n..n + len] == (s + rest)[..len] == s[..len];
  }

  lemma ModAtMost(x: nat, m: nat)
    requires m > 0
    ensures x % m <= x && x % m < m
    ensures x % m == x <==> x < m
  {
    if x < m { SmallMod(x, m); }
  }
}
