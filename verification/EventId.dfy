/** Event identity (internal/ingest/eventid/eventid.go): the bytes that are hashed into an id.
    SHA-1 and the uuid layout of section 5.5 of RFC 9562 stay outside the model. */
module EventId {
  import opened Domain

  // ---- encode ----

  const TWO_32: int := 0x1_0000_0000

  /** binary.BigEndian.PutUint32 of uint32(n), which keeps n modulo 2^32. */
  function Prefix(n: nat): (p: seq<Byte>)
    ensures |p| == 4
  {
    var v := n % TWO_32;
    var v8 := v / 256;      // v >> 8
    var v16 := v8 / 256;    // v >> 16
    var v24 := v16 / 256;   // v >> 24
    [v24 as Byte, (v16 % 256) as Byte, (v8 % 256) as Byte, (v % 256) as Byte]
  }

  function Encoding(fields: seq<Text>): seq<Byte> {
    if |fields| == 0 then [] else Prefix(|fields[0]|) + fields[0] + Encoding(fields[1..])
  }

  lemma EncodingCons(f: Text, rest: seq<Text>)
    ensures Encoding([f] + rest) == Prefix(|f|) + f + Encoding(rest)
  {
  }

  lemma {:induction false} EncodingSnoc(fields: seq<Text>, f: Text)
    ensures Encoding(fields + [f]) == Encoding(fields) + Prefix(|f|) + f
    decreases fields
  {
    if |fields| == 0 {
      assert fields + [f] == [f];
      assert Encoding([f]) == Prefix(|f|) + f + Encoding([]);
    } else {
      assert (fields + [f])[1..] == fields[1..] + [f];
      EncodingSnoc(fields[1..], f);
    }
  }

  /** encode: one pass sizes the buffer, a second fills it; the size is exact. */
  method Encode(fields: seq<Text>) returns (buf: seq<Byte>)
    ensures buf == Encoding(fields)
  {
    var n := 0;
    for i := 0 to |fields|
      invariant n == |Encoding(fields[..i])|
    {
      assert fields[..i + 1] == fields[..i] + [fields[i]];
      EncodingSnoc(fields[..i], fields[i]);
      n := n + 4 + |fields[i]|;
    }
    assert fields[..|fields|] == fields;
    buf := [];
    for i := 0 to |fields|
      invariant buf == Encoding(fields[..i])
    {
      assert fields[..i + 1] == fields[..i] + [fields[i]];
      EncodingSnoc(fields[..i], fields[i]);
      buf := buf + Prefix(|fields[i]|);
      buf := buf + fields[i];
    }
    assert |buf| == n;
  }

  // ---- a decoder, to show the boundaries cannot be forged ----

  function Length(p: seq<Byte>): (n: nat)
    requires |p| == 4
    ensures n < TWO_32
  {
    ((p[0] as int * 256 + p[1] as int) * 256 + p[2] as int) * 256 + p[3] as int
  }

  function Decode(buf: seq<Byte>): (fields: Option<seq<Text>>)
    ensures fields.Some? ==> forall i :: 0 <= i < |fields.value| ==> |fields.value[i]| < TWO_32
    decreases |buf|
  {
    if |buf| == 0 then Some([])
    else if |buf| < 4 || |buf| < 4 + Length(buf[..4]) then None
    else
      var n := Length(buf[..4]);
      match Decode(buf[4 + n..])
      case None => None
      case Some(rest) => Some([buf[4..4 + n]] + rest)
  }

  /** The prefix is the length modulo 2^32, most significant byte first. */
  lemma PrefixIsBigEndian(n: nat)
    ensures
      var p := Prefix(n);
      p[0] as int * 0x100_0000 + p[1] as int * 0x1_0000 + p[2] as int * 0x100 + p[3] as int == n % 0x1_0000_0000
  {
  }

  lemma PrefixRoundTrip(n: nat)
    requires n < TWO_32
    ensures Length(Prefix(n)) == n
  {
  }

  lemma LengthRoundTrip(p: seq<Byte>)
    requires |p| == 4
    ensures Prefix(Length(p)) == p
  {
    var n := Length(p);
    assert n % TWO_32 == n;
    assert n / 256 == (p[0] as int * 256 + p[1] as int) * 256 + p[2] as int;
    assert n / 256 / 256 == p[0] as int * 256 + p[1] as int;
  }

  lemma {:induction false} EncodingFrom(head: seq<Byte>, body: Text, rest: seq<Text>)
    requires |head| == 4 && Length(head) == |body|
    ensures Encoding([body] + rest) == head + body + Encoding(rest)
  {
    LengthRoundTrip(head);
    EncodingCons(body, rest);
  }

  /** Short fields: each fits the 32-bit length prefix. */
  predicate Short(fields: seq<Text>) {
    forall i :: 0 <= i < |fields| ==> |fields[i]| < TWO_32
  }

  lemma {:induction false} DecodeOfEncoding(fields: seq<Text>)
    requires Short(fields)
    ensures Decode(Encoding(fields)) == Some(fields)
    decreases fields
  {
    if |fields| == 0 {
    } else {
      var f, rest := fields[0], fields[1..];
      var buf := Encoding(fields);
      PrefixRoundTrip(|f|);
      assert buf[..4] == Prefix(|f|);
      assert buf[4..4 + |f|] == f;
      assert buf[4 + |f|..] == Encoding(rest);
      DecodeOfEncoding(rest);
      assert fields == [f] + rest;
    }
  }

  /** The decoder recovers the field list exactly when every field is shorter than 2^32 bytes. */
  lemma {:induction false} RoundTripExactly(fields: seq<Text>)
    ensures Decode(Encoding(fields)) == Some(fields) <==> Short(fields)
  {
    if Short(fields) {
      DecodeOfEncoding(fields);
    }
  }

  /** A non-empty decodable buffer is a length, a field of that length, and a decodable rest. */
  lemma {:induction false} DecodeSplits(buf: seq<Byte>) returns (head: seq<Byte>, body: Text, tail: seq<Byte>)
    requires |buf| > 0 && Decode(buf).Some?
    ensures |head| == 4 && Length(head) == |body| && buf == head + body + tail
    ensures Decode(tail).Some? && Decode(buf).value == [body] + Decode(tail).value
  {
    head := buf[..4];
    var n := Length(head);
    body, tail := buf[4..4 + n], buf[4 + n..];
  }

  /** Conversely a decodable buffer is the encoding of what it decodes to. */
  lemma {:induction false} EncodingOfDecode(buf: seq<Byte>)
    requires Decode(buf).Some?
    ensures Encoding(Decode(buf).value) == buf
    decreases |buf|
  {
    if |buf| == 0 {
    } else {
      var head, body, tail := DecodeSplits(buf);
      EncodingOfDecode(tail);
      EncodingFrom(head, body, Decode(tail).value);
    }
  }

  lemma {:induction false} Unforgeable(a: seq<Text>, b: seq<Text>)
    requires Short(a) && Short(b) && Encoding(a) == Encoding(b)
    ensures a == b
  {
    DecodeOfEncoding(a);
    DecodeOfEncoding(b);
  }

  // The prefix wraps at 2^32. For `encode` on its own: one field of 2^32 zero bytes reads as that many
  // bytes of empty fields. DerivationsCollide below does it with the field lists the callers build.

  function Zeros(n: nat): (z: Text)
    ensures |z| == n && forall i :: 0 <= i < n ==> z[i] == 0
  {
    seq(n, _ => 0)
  }

  function Empties(n: nat): (fs: seq<Text>)
    ensures |fs| == n && forall i :: 0 <= i < n ==> fs[i] == []
  {
    seq(n, _ => [])
  }

  lemma {:induction false} EncodingOfEmpties(n: nat)
    ensures Encoding(Empties(n)) == Zeros(4 * n)
  {
    if n > 0 {
      EncodingOfEmpties(n - 1);
      assert Empties(n)[1..] == Empties(n - 1);
      assert Prefix(0) == Zeros(4);
      assert Encoding(Empties(n)) == Prefix(0) + [] + Encoding(Empties(n - 1));
      assert Zeros(4) + [] + Zeros(4 * (n - 1)) == Zeros(4 * n);
    } else {
      assert Empties(0) == [];
      assert Zeros(0) == [];
    }
  }

  lemma LongFieldCollides()
    ensures Encoding([Zeros(TWO_32)]) == Encoding(Empties(1 + TWO_32 / 4))
  {
    EncodingOfEmpties(1 + TWO_32 / 4);
    assert Prefix(TWO_32) == Zeros(4);
    assert [Zeros(TWO_32)][1..] == [];
    assert Encoding([Zeros(TWO_32)]) == Prefix(TWO_32) + Zeros(TWO_32) + [];
    assert Zeros(4) + Zeros(TWO_32) + [] == Zeros(4 * (1 + TWO_32 / 4));
  }

  // ---- itoa ----

  const MIN_64: int := -0x8000_0000_0000_0000
  const MAX_64: int := 0x7fff_ffff_ffff_ffff

  type Int64 = n: int | MIN_64 <= n <= MAX_64

  const MINUS: Byte := 45
  const ZERO: Byte := 48

  /** Two's-complement negation: the minimum is its own negation. */
  function Negate(n: Int64): Int64 { if n == MIN_64 then MIN_64 else -n }

  function Digits(n: nat): (ds: Text)
    ensures n > 0 ==> |ds| > 0
  {
    if n == 0 then [] else Digits(n / 10) + [(48 + n % 10) as Byte]
  }

  /** What itoa prints; for the minimum the loop body never runs. */
  function Printed(n: Int64): Text {
    if n == 0 then [ZERO]
    else if n > 0 then Digits(n)
    else [MINUS] + (if n == MIN_64 then [] else Digits(-n))
  }

  function Pow10(k: nat): (p: nat)
    ensures p > 0
  {
    if k == 0 then 1 else 10 * Pow10(k - 1)
  }

  lemma BufferFits()
    ensures MAX_64 < Pow10(19)
  {
    assert Pow10(4) == 10000;
    assert Pow10(8) == 10000 * Pow10(4);
    assert Pow10(12) == 10000 * Pow10(8);
    assert Pow10(16) == 10000 * Pow10(12);
    assert Pow10(19) == 1000 * Pow10(16);
  }

  /** While n has fewer than i digits there is room for the next digit and the sign. */
  lemma DigitStep(n: nat, i: nat)
    requires n > 0 && 1 <= i && n < Pow10(i - 1)
    ensures i > 1 && n / 10 < Pow10(i - 2)
  {
  }

  lemma DigitMoves(n: nat, tail: Text)
    requires n > 0
    ensures Digits(n) + tail == Digits(n / 10) + ([(48 + n % 10) as Byte] + tail)
  {
  }

  /** The digit loop of itoa: fills the end of the buffer backwards and leaves room for a sign. */
  method WriteDigits(b: array<Byte>, value: int) returns (i: int)
    requires b.Length == 20 && value <= MAX_64
    modifies b
    ensures 1 <= i <= 20 && b[i..] == Digits(if value > 0 then value else 0)
  {
    i := 20;
    if value <= 0 {
      return;
    }
    var n := value;
    BufferFits();
    while n > 0
      invariant 1 <= i <= 20 && 0 <= n < Pow10(i - 1)
      invariant Digits(value) == Digits(n) + b[i..]
    {
      DigitStep(n, i);
      ghost var tail := b[i..];
      var digit := (48 + n % 10) as Byte;
      DigitMoves(n, tail);
      i := i - 1;
      b[i] := digit;
      assert b[i..] == [digit] + tail;
      n := n / 10;
    }
  }

  /** itoa over a 20-byte buffer. */
  method Itoa(value: Int64) returns (s: Text)
    ensures s == Printed(value)
  {
    if value == 0 {
      return [ZERO];
    }
    var n: Int64 := value;
    var neg := n < 0;
    if neg {
      n := Negate(n);
    }
    var b := new Byte[20];
    var i := WriteDigits(b, n);
    if neg {
      ghost var tail := b[i..];
      i := i - 1;
      b[i] := MINUS;
      assert b[i..] == [MINUS] + tail;
    }
    s := b[i..];
  }

  predicate IsDigit(b: Byte) { 48 <= b <= 57 }

  function ParseNat(s: Text): Option<nat> {
    if |s| == 0 then Some(0)
    else
      match ParseNat(s[..|s| - 1])
      case None => None
      case Some(n) => if IsDigit(s[|s| - 1]) then Some(10 * n + (s[|s| - 1] as int - 48)) else None
  }

  function ParseInt(s: Text): Option<int> {
    if |s| == 0 || s == [MINUS] then None
    else
      var negative := s[0] == MINUS;
      var magnitude := ParseNat(if negative then s[1..] else s);
      if magnitude.None? then None
      else Some(if negative then -(magnitude.value as int) else magnitude.value as int)
  }

  lemma {:induction false} ParseDigits(n: nat)
    ensures ParseNat(Digits(n)) == Some(n)
    ensures forall i :: 0 <= i < |Digits(n)| ==> IsDigit(Digits(n)[i])
  {
    if n > 0 {
      ParseDigits(n / 10);
      assert Digits(n)[..|Digits(n)| - 1] == Digits(n / 10);
    }
  }

  lemma ParsePositive(n: nat)
    requires n > 0
    ensures ParseInt(Digits(n)) == Some(n) && ParseInt([MINUS] + Digits(n)) == Some(0 - n as int)
  {
    ParseDigits(n);
    assert IsDigit(Digits(n)[0]);
    assert ([MINUS] + Digits(n))[1..] == Digits(n);
  }

  /** Reading back what was printed gives the number, for every 64-bit value but the minimum. */
  lemma PrintParse(n: Int64)
    ensures ParseInt(Printed(n)) == if n == MIN_64 then None else Some(n)
  {
    if n == 0 {
      assert [ZERO][..0] == [];
      assert ParseNat([ZERO]) == Some(0);
    } else if n > 0 {
      ParsePositive(n);
    } else if n != MIN_64 {
      ParsePositive(-n);
    } else {
      assert Printed(n) == [MINUS];
    }
  }

  /** No two 64-bit values print alike: the minimum prints a bare minus sign, which nothing else does. */
  lemma PrintedInjective(m: Int64, n: Int64)
    requires Printed(m) == Printed(n)
    ensures m == n
  {
    PrintParse(m);
    PrintParse(n);
  }

  // ---- the two derivations ----

  const SCHEME: Text := Ascii("v1")

  datatype Fields = Fields(
    backend: Text,
    eventType: Text,
    room: Text,
    identity: Text,
    sid: Text,
    trackSid: Text,
    occurredAt: Instant,
    ordinal: Int64)

  /** The foreign parts: the hash, and the RFC 3339 text of an instant (section 5.6 of RFC 3339). */
  datatype Platform = Platform(uuid5: seq<Byte> -> Id, timeText: Instant -> Text)

  ghost predicate TimeTextInjective(p: Platform) {
    forall s, t :: p.timeText(s) == p.timeText(t) ==> s == t
  }

  function BackendIdFields(backend: Text, backendEventId: Text): seq<Text> {
    [SCHEME, backend, backendEventId]
  }

  function FallbackFields(p: Platform, f: Fields): seq<Text> {
    [SCHEME, f.backend, f.eventType, f.room, f.identity, f.sid, f.trackSid,
     p.timeText(f.occurredAt), Printed(f.ordinal)]
  }

  function FromBackendEventId(p: Platform, backend: Text, backendEventId: Text): Id {
    p.uuid5(Encoding(BackendIdFields(backend, backendEventId)))
  }

  function FromFields(p: Platform, f: Fields): Id {
    p.uuid5(Encoding(FallbackFields(p, f)))
  }

  /** What is hashed for a LiveKit event id, byte by byte: the scheme "v1", the backend "livekit", the id. */
  lemma BackendIdBytes(backendEventId: Text)
    ensures Encoding(BackendIdFields(LIVEKIT, backendEventId)) ==
            [0, 0, 0, 2, 118, 49] + [0, 0, 0, 7, 108, 105, 118, 101, 107, 105, 116]
            + Prefix(|backendEventId|) + backendEventId
  {
    BackendIdEncoding(LIVEKIT, backendEventId);
    HeadEncoding(LIVEKIT);
    assert SCHEME == [118, 49] && LIVEKIT == [108, 105, 118, 101, 107, 105, 116];
    assert Prefix(2) == [0, 0, 0, 2] && Prefix(7) == [0, 0, 0, 7];
  }

  lemma DecimalExamples()
    ensures Printed(0) == [48] && Printed(12) == [49, 50] && Printed(-120) == [45, 49, 50, 48]
  {
  }

  /** The two derivations never hash the same bytes. */
  lemma DerivationsDisjoint(p: Platform, f: Fields, backend: Text, backendEventId: Text)
    requires Short(FallbackFields(p, f)) && Short(BackendIdFields(backend, backendEventId))
    ensures Encoding(FallbackFields(p, f)) != Encoding(BackendIdFields(backend, backendEventId))
  {
    DecodeOfEncoding(FallbackFields(p, f));
    DecodeOfEncoding(BackendIdFields(backend, backendEventId));
    assert |FallbackFields(p, f)| != |BackendIdFields(backend, backendEventId)|;
  }

  /** The fallback fields after the event type. */
  function FallbackTail(p: Platform, f: Fields): seq<Text> {
    [f.room, f.identity, f.sid, f.trackSid, p.timeText(f.occurredAt), Printed(f.ordinal)]
  }

  lemma FallbackEncoding(p: Platform, f: Fields)
    ensures Encoding(FallbackFields(p, f)) ==
            Encoding([SCHEME, f.backend]) + Prefix(|f.eventType|) + f.eventType + Encoding(FallbackTail(p, f))
  {
    var tail := FallbackTail(p, f);
    assert FallbackFields(p, f) == [SCHEME] + ([f.backend] + ([f.eventType] + tail));
    EncodingCons(SCHEME, [f.backend] + ([f.eventType] + tail));
    EncodingCons(f.backend, [f.eventType] + tail);
    EncodingCons(f.eventType, tail);
    HeadEncoding(f.backend);
  }

  lemma HeadEncoding(backend: Text)
    ensures Encoding([SCHEME, backend]) == Prefix(|SCHEME|) + SCHEME + (Prefix(|backend|) + backend)
  {
    assert [SCHEME, backend] == [SCHEME] + ([backend] + []);
    EncodingCons(SCHEME, [backend] + []);
    EncodingCons(backend, []);
  }

  lemma BackendIdEncoding(backend: Text, backendEventId: Text)
    ensures Encoding(BackendIdFields(backend, backendEventId)) ==
            Encoding([SCHEME, backend]) + Prefix(|backendEventId|) + backendEventId
  {
    assert BackendIdFields(backend, backendEventId) == [SCHEME, backend] + [backendEventId];
    EncodingSnoc([SCHEME, backend], backendEventId);
  }

  lemma PrefixWraps(n: nat)
    ensures Prefix(n + TWO_32) == Prefix(n)
  {
    assert (n + TWO_32) % TWO_32 == n % TWO_32;
  }

  /** Room for the wrap: the length of the tail grows with the room name. */
  lemma TailLength(p: Platform, f: Fields, room: Text)
    requires f.room == []
    ensures |Encoding(FallbackTail(p, f.(room := room)))| == |Encoding(FallbackTail(p, f))| + |room|
    ensures |Encoding(FallbackTail(p, f))| > 0
  {
  }

  /** That the backend's id is short matters: any fallback tuple can be given a room name, itself short, and a
      backend event id of more than 2^32 bytes such that both derivations hash the same bytes. */
  lemma {:induction false} DerivationsCollide(p: Platform, f: Fields) returns (room: Text, backendEventId: Text)
    requires f.room == [] && |Encoding(FallbackTail(p, f))| <= TWO_32
    ensures |room| < TWO_32 <= |backendEventId|
    ensures Encoding(BackendIdFields(f.backend, backendEventId)) == Encoding(FallbackFields(p, f.(room := room)))
  {
    room := Zeros(TWO_32 - |Encoding(FallbackTail(p, f))|);
    var g := f.(room := room);
    TailLength(p, f, room);
    backendEventId := f.eventType + Encoding(FallbackTail(p, g));
    assert |backendEventId| == |f.eventType| + TWO_32;
    PrefixWraps(|f.eventType|);
    FallbackEncoding(p, g);
    BackendIdEncoding(f.backend, backendEventId);
    var head := Encoding([SCHEME, f.backend]) + Prefix(|f.eventType|);
    assert head + backendEventId == head + f.eventType + Encoding(FallbackTail(p, g));
  }

  /** Equal fallback hash inputs mean the same event in every identity field. */
  lemma FallbackSeparates(p: Platform, f: Fields, g: Fields)
    requires TimeTextInjective(p) && Short(FallbackFields(p, f)) && Short(FallbackFields(p, g))
    requires Encoding(FallbackFields(p, f)) == Encoding(FallbackFields(p, g))
    ensures f == g
  {
    var a, b := FallbackFields(p, f), FallbackFields(p, g);
    Unforgeable(a, b);
    assert a[1] == b[1] && a[2] == b[2] && a[3] == b[3] && a[4] == b[4];
    assert a[5] == b[5] && a[6] == b[6] && a[7] == b[7] && a[8] == b[8];
    PrintedInjective(f.ordinal, g.ordinal);
  }

  lemma BackendIdSeparates(b1: Text, id1: Text, b2: Text, id2: Text)
    requires Short(BackendIdFields(b1, id1)) && Short(BackendIdFields(b2, id2))
    requires Encoding(BackendIdFields(b1, id1)) == Encoding(BackendIdFields(b2, id2))
    ensures b1 == b2 && id1 == id2
  {
    var a, b := BackendIdFields(b1, id1), BackendIdFields(b2, id2);
    Unforgeable(a, b);
    assert a[1] == b[1] && a[2] == b[2];
  }
}
