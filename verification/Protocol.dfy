/**
 The message formats (Helens/protocol.h, Helens/protocol.cc): a type byte, then varint fields, and
 for a response a length-prefixed string.
 */
module Protocol {
  import opened Options
  import opened Arith
  import opened Chunks
  import opened Endian
  import opened ByteBuffer
  import opened ByteCodec

  const REQUEST: Byte := 1
  const RESPONSE: Byte := 2
  const NOTIFY: Byte := 3

  predicate U32(x: nat) { x < Limit(32) }

  datatype Request = Request(sn: nat, cmd: nat)
  datatype Response = Response(sn: nat, cmd: nat, result: nat, resultStr: seq<Byte>)
  datatype Notify = Notify(notify: nat)

  /** A list of varint fields, one after another. */
  function Fields(vs: seq<nat>): seq<Byte> {
    if vs == [] then [] else Fields(vs[..|vs| - 1]) + V.Encode(vs[|vs| - 1])
  }

  /** What reading `n` 32-bit varints in a row yields: the values and the bytes used. */
  function ReadFields(s: seq<Byte>, n: nat): (r: Option<(seq<nat>, nat)>)
    ensures r.Some? ==> |r.value.0| == n && r.value.1 <= |s|
  {
    if n == 0 then Some(([], 0))
    else
      match ReadFields(s, n - 1)
      case None => None
      case Some(q) =>
        match V.Parse(s[q.1..], MaxBytes(32))
        case None => None
        case Some(p) => Some((q.0 + [p.value % Limit(32)], q.1 + p.used))
  }

  /** Written fields read back as themselves, whatever follows them. */
  lemma {:induction false} FieldsRoundTrip(vs: seq<nat>, rest: seq<Byte>)
    requires forall i :: 0 <= i < |vs| ==> U32(vs[i])
    ensures ReadFields(Fields(vs) + rest, |vs|) == Some((vs, |Fields(vs)|))
    decreases |vs|
  {
    hide V.Parse, V.Encode, ReadFields, Limit, MaxBytes;
    if vs == [] {
      StartFields(rest);
      assert Fields(vs) + rest == rest;
    } else {
      var init, v := vs[..|vs| - 1], vs[|vs| - 1];
      var e, tail := V.Encode(v), V.Encode(v) + rest;
      FieldsRoundTrip(init, tail);
      var s := Fields(init) + tail;
      assert Fields(vs) + rest == s;
      assert s[|Fields(init)|..] == tail;
      FitsMaxBytes(v, 32);
      V.RoundTrip(v, rest, MaxBytes(32));
      SmallMod(v, Limit(32));
      ReadOneMore(s, |init|);
      assert init + [v] == vs;
    }
  }

  lemma ReadOneMore(s: seq<Byte>, n: nat)
    requires ReadFields(s, n).Some?
    ensures var q := ReadFields(s, n).value;
      ReadFields(s, n + 1) ==
      match V.Parse(s[q.1..], MaxBytes(32))
      case None => None
      case Some(p) => Some((q.0 + [p.value % Limit(32)], q.1 + p.used))
  {
    hide V.Parse, Limit;
  }

  // ----- serializing -----

  function RequestImage(m: Request): seq<Byte> { [REQUEST] + Fields([m.sn, m.cmd]) }

  function NotifyImage(m: Notify): seq<Byte> { [NOTIFY] + Fields([m.notify]) }

  function ResponseImage(m: Response): seq<Byte> {
    [RESPONSE] + Fields([m.sn, m.cmd, m.result]) + (V.Encode(|m.resultStr|) + m.resultStr)
  }

  /** The formats, byte by byte: the type, then the fields in the order in which they are declared. */
  lemma ImagesAre(q: Request, n: Notify, p: Response)
    ensures RequestImage(q) == [1] + V.Encode(q.sn) + V.Encode(q.cmd)
    ensures ResponseImage(p) ==
      [2] + V.Encode(p.sn) + V.Encode(p.cmd) + V.Encode(p.result) + V.Encode(|p.resultStr|) + p.resultStr
    ensures NotifyImage(n) == [3] + V.Encode(n.notify)
  {
    hide V.Encode, Fields;
    TwoFields(q.sn, q.cmd);
    ThreeFields(p.sn, p.cmd, p.result);
    OneField(n.notify);
  }

  /** Write one more field after what has been written since `start`. */
  method WriteField(b: ByteArray, v: nat, ghost before: seq<Byte>, ghost start: nat, ghost data: seq<Byte>)
    requires b.Valid() && U32(v)
    requires WroteAt(before, b.bytes, start, data) && b.position == start + |data|
    modifies b.footprint
    ensures b.Valid() && fresh(b.footprint - old(b.footprint)) && b.footprint >= old(b.footprint)
    ensures b.size == Max(old(b.size), b.position) && b.littleEndian == old(b.littleEndian)
    ensures WroteAt(before, b.bytes, start, data + V.Encode(v)) && b.position == start + |data + V.Encode(v)|
  {
    hide ByteArray.Linked, ByteArray.Holds, ByteArray.Owns, ByteArray.CursorAt, WroteAt, V.Encode;
    ghost var mid := b.bytes;
    WroteLength(before, mid, start, data);
    WriteUint(b, v, 32);
    WroteTwice(before, mid, b.bytes, start, data, V.Encode(v));
  }

  method WriteType(b: ByteArray, t: Byte)
    requires b.Valid()
    modifies b.footprint
    ensures b.Valid() && fresh(b.footprint - old(b.footprint)) && b.footprint >= old(b.footprint)
    ensures b.size == Max(old(b.size), b.position) && b.littleEndian == old(b.littleEndian)
    ensures WroteAt(old(b.bytes), b.bytes, old(b.position), [t]) && b.position == old(b.position) + 1
  {
    b.Write([t]);
  }

  method SerializeRequest(m: Request, b: ByteArray)
    requires b.Valid() && U32(m.sn) && U32(m.cmd)
    modifies b.footprint
    ensures b.Valid() && fresh(b.footprint - old(b.footprint))
    ensures b.position == old(b.position) + |RequestImage(m)| && b.size == Max(old(b.size), b.position)
    ensures WroteAt(old(b.bytes), b.bytes, old(b.position), RequestImage(m))
  {
    hide ByteArray.Valid, WroteAt, V.Encode;
    ghost var before, start := b.bytes, b.position;
    WriteType(b, REQUEST);
    WriteField(b, m.sn, before, start, [REQUEST]);
    WriteField(b, m.cmd, before, start, [REQUEST] + V.Encode(m.sn));
    TwoFields(m.sn, m.cmd);
    assert [REQUEST] + V.Encode(m.sn) + V.Encode(m.cmd) == RequestImage(m);
  }

  method SerializeNotify(m: Notify, b: ByteArray)
    requires b.Valid() && U32(m.notify)
    modifies b.footprint
    ensures b.Valid() && fresh(b.footprint - old(b.footprint))
    ensures b.position == old(b.position) + |NotifyImage(m)| && b.size == Max(old(b.size), b.position)
    ensures WroteAt(old(b.bytes), b.bytes, old(b.position), NotifyImage(m))
  {
    hide ByteArray.Valid, WroteAt, V.Encode;
    ghost var before, start := b.bytes, b.position;
    WriteType(b, NOTIFY);
    WriteField(b, m.notify, before, start, [NOTIFY]);
    OneField(m.notify);
  }

  method SerializeResponse(m: Response, b: ByteArray)
    requires b.Valid() && U32(m.sn) && U32(m.cmd) && U32(m.result) && |m.resultStr| < Limit(64)
    modifies b.footprint
    ensures b.Valid() && fresh(b.footprint - old(b.footprint))
    ensures b.position == old(b.position) + |ResponseImage(m)| && b.size == Max(old(b.size), b.position)
    ensures WroteAt(old(b.bytes), b.bytes, old(b.position), ResponseImage(m))
  {
    hide ByteArray.Valid, WroteAt, V.Encode;
    ghost var before, start := b.bytes, b.position;
    WriteType(b, RESPONSE);
    WriteField(b, m.sn, before, start, [RESPONSE]);
    WriteField(b, m.cmd, before, start, [RESPONSE] + V.Encode(m.sn));
    WriteField(b, m.result, before, start, [RESPONSE] + V.Encode(m.sn) + V.Encode(m.cmd));
    ghost var data := [RESPONSE] + V.Encode(m.sn) + V.Encode(m.cmd) + V.Encode(m.result);
    ghost var mid := b.bytes;
    WroteLength(before, mid, start, data);
    WriteStringVint(b, m.resultStr);
    WroteTwice(before, mid, b.bytes, start, data, V.Encode(|m.resultStr|) + m.resultStr);
    ThreeFields(m.sn, m.cmd, m.result);
    assert data == [RESPONSE] + Fields([m.sn, m.cmd, m.result]);
  }

  lemma OneField(x: nat)
    ensures Fields([x]) == V.Encode(x)
  {
    hide V.Encode;
    assert [x][..0] == [];
    assert Fields([]) == [];
  }

  lemma TwoFields(x: nat, y: nat)
    ensures Fields([x, y]) == V.Encode(x) + V.Encode(y)
  {
    hide V.Encode;
    OneField(x);
    assert [x, y][..1] == [x];
  }

  lemma ThreeFields(x: nat, y: nat, z: nat)
    ensures Fields([x, y, z]) == V.Encode(x) + V.Encode(y) + V.Encode(z)
  {
    hide V.Encode;
    TwoFields(x, y);
    assert [x, y, z][..2] == [x, y];
  }

  // ----- parsing -----

  /** Read one more field, when `k` fields of `s` have been read. */
  method ReadField(b: ByteArray, ghost s: seq<Byte>, ghost k: nat) returns (r: Result<nat>)
    requires b.Valid() && ReadFields(s, k).Some? && Ahead(b) == s[ReadFields(s, k).value.1..]
    modifies b`position, b`cur
    ensures b.Valid()
    ensures match ReadFields(s, k + 1)
      case None => r.OutOfRange?
      case Some(q) =>
        var before := ReadFields(s, k).value;
        && r.Ok? && q.0 == before.0 + [r.value]
        && b.position == old(b.position) + (q.1 - before.1) && Ahead(b) == s[q.1..]
  {
    hide ByteArray.Linked, ByteArray.Holds, ByteArray.Owns, ByteArray.CursorAt, V.Parse;
    ghost var used := ReadFields(s, k).value.1;
    r := ReadUint(b, 32);
    ghost var parsed := V.Parse(s[used..], MaxBytes(32));
    if parsed.Some? {
      assert Ahead(b) == old(Ahead(b))[parsed.value.used..];
    }
  }

  method ParseRequest(b: ByteArray) returns (r: Result<Request>)
    requires b.Valid()
    modifies b`position, b`cur
    ensures b.Valid()
    ensures match ReadFields(old(Ahead(b)), 2)
      case None => r.OutOfRange?
      case Some(q) => r == Ok(Request(q.0[0], q.0[1])) && b.position == old(b.position) + q.1
  {
    hide ByteArray.Linked, ByteArray.Holds, ByteArray.Owns, ByteArray.CursorAt, V.Parse;
    ghost var s := Ahead(b);
    StartFields(s);
    var sn := ReadField(b, s, 0);
    if sn.OutOfRange? { return OutOfRange; }
    var cmd := ReadField(b, s, 1);
    if cmd.OutOfRange? { return OutOfRange; }
    return Ok(Request(sn.value, cmd.value));
  }

  method ParseNotify(b: ByteArray) returns (r: Result<Notify>)
    requires b.Valid()
    modifies b`position, b`cur
    ensures b.Valid()
    ensures match ReadFields(old(Ahead(b)), 1)
      case None => r.OutOfRange?
      case Some(q) => r == Ok(Notify(q.0[0])) && b.position == old(b.position) + q.1
  {
    hide ByteArray.Linked, ByteArray.Holds, ByteArray.Owns, ByteArray.CursorAt, V.Parse;
    ghost var s := Ahead(b);
    StartFields(s);
    var n := ReadField(b, s, 0);
    if n.OutOfRange? { return OutOfRange; }
    return Ok(Notify(n.value));
  }

  lemma {:induction false} FieldsFail(s: seq<Byte>, k: nat, n: nat)
    requires k <= n && ReadFields(s, k).None?
    ensures ReadFields(s, n).None?
  {
    if k < n { FieldsFail(s, k, n - 1); }
  }

  lemma StartFields(s: seq<Byte>)
    ensures ReadFields(s, 0) == Some(([], 0)) && s[0..] == s
  {}

  /** The string of a response, behind its varint length: where it starts and its length. */
  function ReadString(s: seq<Byte>): Option<(nat, nat)> {
    match V.Parse(s, MaxBytes(64))
    case None => None
    case Some(p) => Some((p.used, p.value % Limit(64)))
  }

  /**
   The string reader follows the cursor even for an empty string, so an empty string must not end
   exactly at the capacity.
   */
  ghost predicate StringReadable(b: ByteArray)
    requires b.position <= b.size <= |b.bytes|
    reads b
  {
    match ReadFields(Ahead(b), 3)
    case None => true
    case Some(q) =>
      match ReadString(Ahead(b)[q.1..])
      case None => true
      case Some(t) => t.1 == 0 ==> b.position + q.1 + t.0 < b.capacity
  }

  method ParseResponse(b: ByteArray) returns (r: Result<Response>)
    requires b.Valid() && StringReadable(b)
    modifies b`position, b`cur
    ensures b.Valid()
    ensures match ReadFields(old(Ahead(b)), 3)
      case None => r.OutOfRange?
      case Some(q) =>
        var s := old(Ahead(b))[q.1..];
        match ReadString(s)
        case None => r.OutOfRange?
        case Some(t) =>
          if t.0 + t.1 <= |s|
          then r == Ok(Response(q.0[0], q.0[1], q.0[2], s[t.0..t.0 + t.1])) && b.position == old(b.position) + q.1 + t.0 + t.1
          else r.OutOfRange?
  {
    hide ByteArray.Linked, ByteArray.Holds, ByteArray.Owns, ByteArray.CursorAt, V.Parse, ReadFields, Limit;
    var fields := ReadThree(b);
    if fields.OutOfRange? { return OutOfRange; }
    var str := ReadStringVint(b);
    if str.OutOfRange? { return OutOfRange; }
    return Ok(Response(fields.value.0, fields.value.1, fields.value.2, str.value));
  }

  /** The three numbers of a response. */
  method ReadThree(b: ByteArray) returns (r: Result<(nat, nat, nat)>)
    requires b.Valid()
    modifies b`position, b`cur
    ensures b.Valid()
    ensures match ReadFields(old(Ahead(b)), 3)
      case None => r.OutOfRange?
      case Some(q) =>
        && r == Ok((q.0[0], q.0[1], q.0[2]))
        && b.position == old(b.position) + q.1 && Ahead(b) == old(Ahead(b))[q.1..]
  {
    hide ByteArray.Linked, ByteArray.Holds, ByteArray.Owns, ByteArray.CursorAt, V.Parse, ReadFields, Limit;
    ghost var s := Ahead(b);
    StartFields(s);
    var sn := ReadField(b, s, 0);
    if sn.OutOfRange? {
      FieldsFail(s, 1, 3);
      return OutOfRange;
    }
    var cmd := ReadField(b, s, 1);
    if cmd.OutOfRange? {
      FieldsFail(s, 2, 3);
      return OutOfRange;
    }
    var result := ReadField(b, s, 2);
    if result.OutOfRange? { return OutOfRange; }
    return Ok((sn.value, cmd.value, result.value));
  }

  /** What the parser reads before the bytes of the string: the three numbers and the length. */
  method ReadUpToString(b: ByteArray)
    requires b.Valid()
    modifies b`position, b`cur
    ensures b.Valid()
    ensures match ReadFields(old(Ahead(b)), 3)
      case None => true
      case Some(q) =>
        match ReadString(old(Ahead(b))[q.1..])
        case None => true
        case Some(t) => b.position == old(b.position) + q.1 + t.0
  {
    hide ByteArray.Linked, ByteArray.Holds, ByteArray.Owns, ByteArray.CursorAt, V.Parse, ReadFields, Limit;
    var fields := ReadThree(b);
    if fields.Ok? {
      var length := ReadUint(b, 64);
    }
  }

  // ----- a message read back -----

  method ReadType(b: ByteArray, host: Order) returns (r: Result<nat>)
    requires b.Valid()
    modifies b`position, b`cur
    ensures b.Valid()
    ensures r.Ok? <==> |old(Ahead(b))| > 0
    ensures r.Ok? ==> r.value == old(Ahead(b))[0] && b.position == old(b.position) + 1
    ensures r.Ok? ==> Ahead(b) == old(Ahead(b))[1..]
  {
    hide ByteArray.Linked, ByteArray.Holds, ByteArray.Owns, ByteArray.CursorAt;
    r := ReadFixed(b, host, 1);
    if r.Ok? {
      OneByte(OrderOf(b.littleEndian), old(Ahead(b))[0]);
      assert old(Ahead(b))[..1] == [old(Ahead(b))[0]];
    }
  }

  lemma OneByte(order: Order, x: Byte)
    ensures Load(order, [x]) == x
  {
    assert Rev([x]) == [x];
    assert [x][1..] == [];
  }

  /** A request, at any position of any buffer, whatever lies behind it. */
  method RequestRoundTrip(b: ByteArray, m: Request, host: Order) returns (t: Result<nat>, r: Result<Request>)
    requires b.Valid() && U32(m.sn) && U32(m.cmd)
    modifies b.footprint
    ensures b.Valid() && t == Ok(REQUEST) && r == Ok(m)
    ensures b.position == old(b.position) + |RequestImage(m)|
  {
    hide ByteArray.Linked, ByteArray.Holds, ByteArray.Owns, ByteArray.CursorAt, WroteAt, Fields, ReadFields;
    var start := b.position;
    SerializeRequest(m, b);
    WroteLength(old(b.bytes), b.bytes, start, RequestImage(m));
    var moved := b.SetPosition(start);
    AheadOfWritten(old(b.bytes), b.bytes, start, RequestImage(m), b.size);
    ghost var rest := b.bytes[start + |RequestImage(m)|..b.size];
    BehindType(REQUEST, Fields([m.sn, m.cmd]), rest);
    t := ReadType(b, host);
    FieldsRoundTrip([m.sn, m.cmd], rest);
    r := ParseRequest(b);
  }

  method NotifyRoundTrip(b: ByteArray, m: Notify, host: Order) returns (t: Result<nat>, r: Result<Notify>)
    requires b.Valid() && U32(m.notify)
    modifies b.footprint
    ensures b.Valid() && t == Ok(NOTIFY) && r == Ok(m)
    ensures b.position == old(b.position) + |NotifyImage(m)|
  {
    hide ByteArray.Linked, ByteArray.Holds, ByteArray.Owns, ByteArray.CursorAt, WroteAt, Fields, ReadFields;
    var start := b.position;
    SerializeNotify(m, b);
    WroteLength(old(b.bytes), b.bytes, start, NotifyImage(m));
    var moved := b.SetPosition(start);
    AheadOfWritten(old(b.bytes), b.bytes, start, NotifyImage(m), b.size);
    ghost var rest := b.bytes[start + |NotifyImage(m)|..b.size];
    BehindType(NOTIFY, Fields([m.notify]), rest);
    t := ReadType(b, host);
    FieldsRoundTrip([m.notify], rest);
    r := ParseNotify(b);
  }

  lemma BehindType(t: Byte, fields: seq<Byte>, rest: seq<Byte>)
    ensures ([t] + fields + rest)[0] == t && ([t] + fields + rest)[1..] == fields + rest
  {}

  /**
   A response reads back too, unless its string is empty and the serialized form ends exactly at
   the capacity: then `parsed` is false, and where the string's bytes would be read the cursor is null.
   */
  method ResponseRoundTrip(b: ByteArray, m: Response, host: Order)
    returns (t: Result<nat>, parsed: bool, r: Result<Response>)
    requires b.Valid() && U32(m.sn) && U32(m.cmd) && U32(m.result) && |m.resultStr| < Limit(64)
    modifies b.footprint
    ensures b.Valid() && t == Ok(RESPONSE)
    ensures !parsed <==> m.resultStr == [] && old(b.position) + |ResponseImage(m)| == b.capacity
    ensures parsed ==> r == Ok(m) && b.position == old(b.position) + |ResponseImage(m)|
    ensures !parsed ==> b.position == old(b.position) + |ResponseImage(m)| && b.cur == null
  {
    hide ByteArray.Linked, ByteArray.Holds, ByteArray.Owns, ByteArray.CursorAt, WroteAt, Fields, ReadFields, V.Encode, ReadString, Limit;
    var start := b.position;
    SerializeResponse(m, b);
    var atEnd := b.position == b.capacity;
    WroteLength(old(b.bytes), b.bytes, start, ResponseImage(m));
    var moved := b.SetPosition(start);
    AheadOfWritten(old(b.bytes), b.bytes, start, ResponseImage(m), b.size);
    ghost var tail := b.bytes[start + |ResponseImage(m)|..b.size];
    ResponseAhead(m, tail);
    t := ReadType(b, host);
    if m.resultStr == [] && atEnd {
      ReadUpToString(b);
      b.CursorAtEnd();
      return t, false, OutOfRange;
    }
    parsed := true;
    r := ParseResponse(b);
  }

  /** A serialized response, taken apart the way the parser does it. */
  lemma ResponseAhead(m: Response, tail: seq<Byte>)
    requires U32(m.sn) && U32(m.cmd) && U32(m.result) && |m.resultStr| < Limit(64)
    ensures var image := ResponseImage(m);
      var s := (image + tail)[1..];
      var q := ReadFields(s, 3);
      && (image + tail)[0] == RESPONSE
      && q.Some? && q.value.0 == [m.sn, m.cmd, m.result]
      && var t := ReadString(s[q.value.1..]);
      && t.Some? && t.value.1 == |m.resultStr|
      && 1 + q.value.1 + t.value.0 + t.value.1 == |image|
      && s[q.value.1..][t.value.0..t.value.0 + t.value.1] == m.resultStr
  {
    hide Fields, ReadFields, V.Encode, ReadString, Limit;
    var fields, e := Fields([m.sn, m.cmd, m.result]), V.Encode(|m.resultStr|);
    var rest := e + m.resultStr + tail;
    BehindType(RESPONSE, fields, rest);
    assert ResponseImage(m) + tail == [RESPONSE] + fields + rest;
    FieldsRoundTrip([m.sn, m.cmd, m.result], rest);
    StringBack(m.resultStr, tail);
    assert (fields + rest)[|fields|..] == rest;
    assert rest[|e|..|e| + |m.resultStr|] == m.resultStr;
  }

  lemma StringBack(str: seq<Byte>, tail: seq<Byte>)
    requires |str| < Limit(64)
    ensures ReadString(V.Encode(|str|) + str + tail) == Some((|V.Encode(|str|)|, |str|))
  {
    hide V.Encode, V.Parse;
    FitsMaxBytes(|str|, 64);
    V.RoundTrip(|str|, str + tail, MaxBytes(64));
    assert V.Encode(|str|) + str + tail == V.Encode(|str|) + (str + tail);
    SmallMod(|str|, Limit(64));
  }
}
