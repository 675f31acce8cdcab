/**
 The pagination cursor: a JSON list with a truncated SHA-256 checksum, in URL-safe base64 without
 padding (section 5 of RFC 4648). JSON and SHA-256 are parameters with the laws the round trip needs.
 */
module Cursor {
  import opened Wrappers

  type Byte = b: int | 0 <= b < 256
  type Sextet = d: int | 0 <= d < 64

  // ---------------------------------------------------------------- base64

  function Symbol(d: Sextet): char {
    if d < 26 then 'A' + d as char
    else if d < 52 then 'a' + (d - 26) as char
    else if d < 62 then '0' + (d - 52) as char
    else if d == 62 then '-' else '_'
  }

  /** The value of a character. The URL-safe decoder still accepts '+' and '/'. */
  function Value(c: char): Option<Sextet> {
    if 'A' <= c <= 'Z' then Some(c as int - 'A' as int)
    else if 'a' <= c <= 'z' then Some(c as int - 'a' as int + 26)
    else if '0' <= c <= '9' then Some(c as int - '0' as int + 52)
    else if c == '-' || c == '+' then Some(62)
    else if c == '_' || c == '/' then Some(63)
    else None
  }

  lemma ValueOfSymbol(d: Sextet)
    ensures Value(Symbol(d)) == Some(d) && Symbol(d) != '='
  {
  }

  /** The four sextets of three bytes. */
  function Group(b0: Byte, b1: Byte, b2: Byte): (Sextet, Sextet, Sextet, Sextet) {
    (b0 / 4, b0 % 4 * 16 + b1 / 16, b1 % 16 * 4 + b2 / 64, b2 % 64)
  }

  /** Base64 with the padding stripped: four characters per three bytes, two or three for the rest. */
  function Encode64(bytes: seq<Byte>): seq<char> {
    if bytes == [] then []
    else if |bytes| == 1 then
      var g := Group(bytes[0], 0, 0);
      [Symbol(g.0), Symbol(g.1)]
    else if |bytes| == 2 then
      var g := Group(bytes[0], bytes[1], 0);
      [Symbol(g.0), Symbol(g.1), Symbol(g.2)]
    else
      var g := Group(bytes[0], bytes[1], bytes[2]);
      [Symbol(g.0), Symbol(g.1), Symbol(g.2), Symbol(g.3)] + Encode64(bytes[3..])
  }

  /** The decoder's position in a group of four, the bits carried over, and pads seen in a row. */
  datatype Progress = Progress(quad: int, carry: int, pads: int)

  predicate ValidProgress(p: Progress) {
    && 0 <= p.quad < 4 && 0 <= p.pads
    && 0 <= p.carry && (p.quad == 1 ==> p.carry < 64) && (p.quad == 2 ==> p.carry < 16) && (p.quad == 3 ==> p.carry < 4)
  }

  /** The byte completed by the next sextet, if any. */
  function Emitted(p: Progress, d: Sextet): seq<Byte>
    requires ValidProgress(p)
  {
    if p.quad == 0 then []
    else if p.quad == 1 then [p.carry * 4 + d / 16]
    else if p.quad == 2 then [p.carry * 16 + d / 4]
    else [p.carry * 64 + d]
  }

  function Advanced(p: Progress, d: Sextet): (q: Progress)
    requires ValidProgress(p)
    ensures ValidProgress(q)
  {
    if p.quad == 0 then Progress(1, d, 0)
    else if p.quad == 1 then Progress(2, d % 16, 0)
    else if p.quad == 2 then Progress(3, d % 4, 0)
    else Progress(0, 0, 0)
  }

  /**
   The lenient decoder: characters outside the alphabet are skipped, enough padding ends the input,
   and an incomplete group is an error.
   */
  function Decode64(s: seq<char>, p: Progress): Option<seq<Byte>>
    requires ValidProgress(p)
  {
    if s == [] then (if p.quad == 0 then Some([]) else None)
    else if s[0] == '=' then
      if p.quad >= 2 && p.quad + p.pads + 1 >= 4 then Some([])
      else if p.quad >= 2 then Decode64(s[1..], p.(pads := p.pads + 1))
      else Decode64(s[1..], p)
    else
      match Value(s[0])
      case None => Decode64(s[1..], p)
      case Some(d) =>
        var rest := Decode64(s[1..], Advanced(p, d));
        if rest.None? then None else Some(Emitted(p, d) + rest.value)
  }

  const Start := Progress(0, 0, 0)

  /** `"=" * (-len % 4)`: padding up to a multiple of four. */
  function Padding(n: nat): seq<char> {
    if n % 4 == 0 then [] else if n % 4 == 1 then ['=', '=', '='] else if n % 4 == 2 then ['=', '='] else ['=']
  }

  lemma DecodeSymbol(d: Sextet, rest: seq<char>, p: Progress)
    requires ValidProgress(p)
    ensures var r := Decode64(rest, Advanced(p, d));
            Decode64([Symbol(d)] + rest, p) == if r.None? then None else Some(Emitted(p, d) + r.value)
  {
    ValueOfSymbol(d);
    assert ([Symbol(d)] + rest)[1..] == rest;
  }

  /** Sextets put back together are the bytes they came from. */
  lemma Regroup(b0: Byte, b1: Byte, b2: Byte)
    ensures var g := Group(b0, b1, b2);
            && g.0 * 4 + g.1 / 16 == b0 && g.1 % 16 * 16 + g.2 / 4 == b1 && g.2 % 4 * 64 + g.3 == b2
  {
  }

  /** Two symbols at the start of a group complete one byte. */
  lemma DecodeTwoSymbols(d0: Sextet, d1: Sextet, rest: seq<char>)
    ensures var r := Decode64(rest, Progress(2, d1 % 16, 0));
            Decode64([Symbol(d0), Symbol(d1)] + rest, Start) == if r.None? then None else Some([d0 * 4 + d1 / 16] + r.value)
  {
    hide Symbol, Value, Decode64;
    var tail := [Symbol(d1)] + rest;
    DecodeSymbol(d1, rest, Progress(1, d0, 0));
    DecodeSymbol(d0, tail, Start);
    assert [Symbol(d0), Symbol(d1)] + rest == [Symbol(d0)] + tail;
    var r := Decode64(tail, Progress(1, d0, 0));
    assert r.Some? ==> [] + r.value == r.value;
  }

  /** A third symbol completes the second byte. */
  lemma DecodeThreeSymbols(d0: Sextet, d1: Sextet, d2: Sextet, rest: seq<char>)
    ensures var r := Decode64(rest, Progress(3, d2 % 4, 0));
            Decode64([Symbol(d0), Symbol(d1), Symbol(d2)] + rest, Start) ==
            if r.None? then None else Some([d0 * 4 + d1 / 16, d1 % 16 * 16 + d2 / 4] + r.value)
  {
    hide Symbol, Value, Decode64;
    var tail := [Symbol(d2)] + rest;
    DecodeSymbol(d2, rest, Progress(2, d1 % 16, 0));
    DecodeTwoSymbols(d0, d1, tail);
    assert [Symbol(d0), Symbol(d1), Symbol(d2)] + rest == [Symbol(d0), Symbol(d1)] + tail;
    var r := Decode64(rest, Progress(3, d2 % 4, 0));
    var x: Byte, y: Byte := d0 * 4 + d1 / 16, d1 % 16 * 16 + d2 / 4;
    assert r.Some? ==> [x] + ([y] + r.value) == [x, y] + r.value;
  }

  /** Four symbols decode to their three bytes, and the decoder is back at the start of a group. */
  lemma DecodeGroup(b0: Byte, b1: Byte, b2: Byte, rest: seq<char>)
    requires Decode64(rest, Start).Some?
    ensures var g := Group(b0, b1, b2);
            Decode64([Symbol(g.0), Symbol(g.1), Symbol(g.2), Symbol(g.3)] + rest, Start) ==
            Some([b0, b1, b2] + Decode64(rest, Start).value)
  {
    hide Symbol, Value, Decode64;
    var g := Group(b0, b1, b2);
    var tail := [Symbol(g.3)] + rest;
    Regroup(b0, b1, b2);
    DecodeSymbol(g.3, rest, Progress(3, g.2 % 4, 0));
    DecodeThreeSymbols(g.0, g.1, g.2, tail);
    assert [Symbol(g.0), Symbol(g.1), Symbol(g.2), Symbol(g.3)] + rest == [Symbol(g.0), Symbol(g.1), Symbol(g.2)] + tail;
    var r := Decode64(rest, Start).value;
    assert [b0, b1] + ([b2] + r) == [b0, b1, b2] + r;
  }

  /** Padding ends the input after one or two bytes of a group. */
  lemma DecodePadding(carry: int)
    requires 0 <= carry < 4 || 0 <= carry < 16
    ensures Decode64(['=', '='], Progress(2, carry, 0)) == Some([])
    ensures carry < 4 ==> Decode64(['='], Progress(3, carry, 0)) == Some([])
  {
    assert ['=', '='][1..] == ['='];
    assert Decode64(['='], Progress(2, carry, 1)) == Some([]);
  }

  /** How long the stripped encoding is: four characters for three bytes, rounded up. */
  lemma {:induction false} EncodedLength(bytes: seq<Byte>)
    ensures |Encode64(bytes)| == (4 * |bytes| + 2) / 3
  {
    if |bytes| > 2 { EncodedLength(bytes[3..]); }
  }

  /** Stripping the padding, restoring it and decoding gives the bytes back. */
  lemma {:induction false} Base64RoundTrip(bytes: seq<Byte>)
    ensures var s := Encode64(bytes); Decode64(s + Padding(|s|), Start) == Some(bytes)
  {
    hide Encode64, Decode64, Padding;
    if bytes == [] {
      EndsWithNone();
    } else if |bytes| == 1 {
      EndsWithOne(bytes[0]);
      assert bytes == [bytes[0]];
    } else if |bytes| == 2 {
      EndsWithTwo(bytes[0], bytes[1]);
      assert bytes == [bytes[0], bytes[1]];
    } else {
      Base64RoundTrip(bytes[3..]);
      StartsWithThree(bytes[0], bytes[1], bytes[2], bytes[3..]);
      assert bytes == [bytes[0], bytes[1], bytes[2]] + bytes[3..];
    }
  }

  lemma StartsWithThree(b0: Byte, b1: Byte, b2: Byte, rest: seq<Byte>)
    requires var t := Encode64(rest); Decode64(t + Padding(|t|), Start) == Some(rest)
    ensures var s := Encode64([b0, b1, b2] + rest); Decode64(s + Padding(|s|), Start) == Some([b0, b1, b2] + rest)
  {
    hide Symbol, Value, Decode64, Group;
    var t, g := Encode64(rest), Group(b0, b1, b2);
    var four := [Symbol(g.0), Symbol(g.1), Symbol(g.2), Symbol(g.3)];
    var bytes := [b0, b1, b2] + rest;
    assert bytes[3..] == rest;
    assert Encode64(bytes) == four + t;
    DecodeGroup(b0, b1, b2, t + Padding(|t|));
    assert (four + t) + Padding(|t|) == four + (t + Padding(|t|));
  }

  lemma EndsWithNone()
    ensures var s := Encode64([]); Decode64(s + Padding(|s|), Start) == Some([])
  {
  }

  lemma EndsWithOne(b: Byte)
    ensures var s := Encode64([b]); Decode64(s + Padding(|s|), Start) == Some([b])
  {
    hide Symbol, Value, Decode64, Group;
    var g := Group(b, 0, 0);
    Regroup(b, 0, 0);
    DecodePadding(g.1 % 16);
    DecodeTwoSymbols(g.0, g.1, ['=', '=']);
    assert Encode64([b]) == [Symbol(g.0), Symbol(g.1)];
    assert [b] + [] == [b];
  }

  lemma EndsWithTwo(b0: Byte, b1: Byte)
    ensures var s := Encode64([b0, b1]); Decode64(s + Padding(|s|), Start) == Some([b0, b1])
  {
    hide Symbol, Value, Decode64, Group;
    var g := Group(b0, b1, 0);
    Regroup(b0, b1, 0);
    DecodePadding(g.2 % 4);
    DecodeThreeSymbols(g.0, g.1, g.2, ['=']);
    assert Encode64([b0, b1]) == [Symbol(g.0), Symbol(g.1), Symbol(g.2)];
    assert [b0, b1] + [] == [b0, b1];
  }

  // ---------------------------------------------------------------- the cursor

  /** The scalars a sort-key component may hold; a finite float is mantissa * 2^exponent. */
  datatype Scalar = Text(s: string) | Integer(n: int) | Float(mantissa: int, exponent: int) | Boolean(b: bool) | Null

  datatype Json = Array(items: seq<Json>) | Object | Leaf(value: Scalar)

  /** What `json.loads` does with bytes: a value, its own decode error, or another error (bytes that are not Unicode). */
  datatype Loaded = Parsed(json: Json) | NotJson | OtherError

  /** The codecs the cursor is built on. */
  datatype Codec = Codec(
    dumps: seq<Scalar> -> seq<Byte>,
    loads: seq<Byte> -> Loaded,
    sha256: seq<Byte> -> seq<Byte>)

  /** A decoded cursor, the validation error, or the error of `json.loads` that is not caught. */
  datatype Decoded = Decoded(values: seq<Scalar>) | Invalid | Raised

  function Leaves(values: seq<Scalar>): (r: seq<Json>)
    ensures |r| == |values| && forall i :: 0 <= i < |r| ==> r[i] == Leaf(values[i])
  {
    seq(|values|, i requires 0 <= i < |values| => Leaf(values[i]))
  }

  /** A digest has 32 bytes. */
  ghost predicate Digests(c: Codec) {
    forall bytes: seq<Byte> :: |c.sha256(bytes)| == 32
  }

  /** This list of scalars is written with its brackets and read back as written. */
  ghost predicate ReadsBack(c: Codec, values: seq<Scalar>) {
    |c.dumps(values)| >= 2 && c.loads(c.dumps(values)) == Parsed(Array(Leaves(values)))
  }

  /** Both laws can be met, for any list and any length its text may have. */
  lemma LawfulCodec(values: seq<Scalar>, n: nat) returns (c: Codec)
    requires n >= 2
    ensures Digests(c) && ReadsBack(c, values) && |c.dumps(values)| == n
  {
    var text := seq(n, _ => 0);
    c := Codec(_ => text, bytes => if bytes == text then Parsed(Array(Leaves(values))) else OtherError, _ => seq(32, _ => 0));
  }

  const MAX_CURSOR_LENGTH := 2048
  const CHECKSUM_BYTES := 16

  /** `encode_cursor`: at least one value is required. */
  function EncodeCursor(c: Codec, values: seq<Scalar>): Option<seq<char>>
    requires Digests(c)
  {
    if values == [] then None
    else
      var payload := c.dumps(values);
      Some(Encode64(payload + c.sha256(payload)[..CHECKSUM_BYTES]))
  }

  /** What `encode("ascii")` accepts. */
  predicate Ascii(s: seq<char>) { forall i :: 0 <= i < |s| ==> s[i] < 128 as char }

  lemma {:induction false} EncodedIsAscii(bytes: seq<Byte>)
    ensures Ascii(Encode64(bytes))
  {
    if |bytes| > 2 { EncodedIsAscii(bytes[3..]); }
  }

  predicate AllLeaves(items: seq<Json>) { forall i :: 0 <= i < |items| ==> items[i].Leaf? }

  function Values(items: seq<Json>): (r: seq<Scalar>)
    requires AllLeaves(items)
  {
    seq(|items|, i requires 0 <= i < |items| => items[i].value)
  }

  /** The payload of a cursor that passes every check up to the JSON text. */
  function Payload(c: Codec, cursor: seq<char>): Option<seq<Byte>>
    requires Digests(c)
  {
    if cursor == [] || |cursor| > MAX_CURSOR_LENGTH || !Ascii(cursor) then None
    else
      var raw := Decode64(cursor + Padding(|cursor|), Start);
      if raw.None? || |raw.value| <= CHECKSUM_BYTES then None
      else
        var n := |raw.value| - CHECKSUM_BYTES;
        var payload, checksum := raw.value[..n], raw.value[n..];
        if checksum != c.sha256(payload)[..CHECKSUM_BYTES] then None else Some(payload)
  }

  /** `decode_cursor`: the checks in order; only the JSON decode error of `json.loads` becomes a validation error. */
  function DecodeCursor(c: Codec, cursor: seq<char>): Decoded
    requires Digests(c)
  {
    var payload := Payload(c, cursor);
    if payload.None? then Invalid
    else
      var loaded := c.loads(payload.value);
      if loaded.OtherError? then Raised
      else if loaded.NotJson? || !loaded.json.Array? || loaded.json.items == [] || !AllLeaves(loaded.json.items) then Invalid
      else Decoded(Values(loaded.json.items))
  }

  /** The cursor of a payload, with its own checksum. */
  function Sealed(c: Codec, payload: seq<Byte>): seq<char>
    requires Digests(c)
  {
    Encode64(payload + c.sha256(payload)[..CHECKSUM_BYTES])
  }

  /** A sealed payload is found again exactly if it has between 1 and 1520 bytes. */
  lemma PayloadOfSealed(c: Codec, payload: seq<Byte>)
    requires Digests(c)
    ensures Payload(c, Sealed(c, payload)) == if 1 <= |payload| <= 1520 then Some(payload) else None
  {
    hide Decode64, Encode64, Padding;
    var checksum := c.sha256(payload)[..CHECKSUM_BYTES];
    var raw := payload + checksum;
    EncodedLength(raw);
    EncodedIsAscii(raw);
    Base64RoundTrip(raw);
    assert raw[..|payload|] == payload && raw[|payload|..] == checksum;
  }

  /**
   A cursor is accepted with a payload if and only if it is plain ASCII of 1 to 2048 characters whose
   bytes are that payload, which is not empty, followed by the payload's own checksum.
   */
  lemma PayloadIff(c: Codec, cursor: seq<char>, payload: seq<Byte>)
    requires Digests(c)
    ensures Payload(c, cursor) == Some(payload)
            <==> 1 <= |cursor| <= 2048 && Ascii(cursor) && payload != []
                 && Decode64(cursor + Padding(|cursor|), Start) == Some(payload + c.sha256(payload)[..16])
  {
    hide Decode64, Padding, Ascii;
    var raw := Decode64(cursor + Padding(|cursor|), Start);
    if raw.Some? {
      if raw.value == payload + c.sha256(payload)[..16] {
        assert raw.value[..|payload|] == payload && raw.value[|payload|..] == c.sha256(payload)[..16];
      } else if |raw.value| > 16 {
        var n := |raw.value| - 16;
        assert raw.value == raw.value[..n] + raw.value[n..];
      }
    }
  }

  /** A cursor decodes to some values if and only if its payload is the JSON text of a non-empty array of just these. */
  lemma DecodesIff(c: Codec, cursor: seq<char>, values: seq<Scalar>)
    requires Digests(c)
    ensures DecodeCursor(c, cursor) == Decoded(values)
            <==> values != [] && Payload(c, cursor).Some? && c.loads(Payload(c, cursor).value) == Parsed(Array(Leaves(values)))
  {
    hide Payload;
    var payload := Payload(c, cursor);
    if payload.Some? {
      var loaded := c.loads(payload.value);
      if DecodeCursor(c, cursor) == Decoded(values) {
        assert loaded.json.items == Leaves(values);
      } else if loaded == Parsed(Array(Leaves(values))) {
        assert Values(Leaves(values)) == values;
      }
    }
  }

  /** A payload with any other checksum than its own is refused, whatever it says. */
  lemma WrongChecksumIsInvalid(c: Codec, payload: seq<Byte>, checksum: seq<Byte>)
    requires Digests(c) && |checksum| == 16 && checksum != c.sha256(payload)[..16]
    ensures DecodeCursor(c, Encode64(payload + checksum)) == Invalid
  {
    hide Decode64, Encode64, Padding;
    var raw := payload + checksum;
    Base64RoundTrip(raw);
    assert raw[..|payload|] == payload && raw[|payload|..] == checksum;
  }

  /**
   The uncaught error is raised by exactly those cursors whose payload passes the checks and is refused
   by `json.loads` with it, and every such payload of 1 to 1520 bytes has a cursor, its own checksum
   being computed from the payload alone.
   */
  lemma RaisedIff(c: Codec, cursor: seq<char>, payload: seq<Byte>)
    requires Digests(c)
    ensures DecodeCursor(c, cursor).Raised? <==> Payload(c, cursor).Some? && c.loads(Payload(c, cursor).value).OtherError?
    ensures c.loads(payload).OtherError? ==> (DecodeCursor(c, Sealed(c, payload)).Raised? <==> 1 <= |payload| <= 1520)
  {
    hide Payload, Sealed;
    PayloadOfSealed(c, payload);
  }

  /**
   A cursor decodes to the values it was made from if and only if the JSON payload has at most 1520
   bytes; a longer one is encoded without complaint and then refused for its length.
   */
  lemma CursorRoundTripIff(c: Codec, values: seq<Scalar>)
    requires Digests(c) && ReadsBack(c, values) && values != []
    ensures EncodeCursor(c, values).Some?
    ensures DecodeCursor(c, EncodeCursor(c, values).value)
         == if |c.dumps(values)| <= 1520 then Decoded(values) else Invalid
  {
    hide Payload, Encode64;
    PayloadOfSealed(c, c.dumps(values));
    assert EncodeCursor(c, values) == Some(Sealed(c, c.dumps(values)));
    assert Values(Leaves(values)) == values;
  }
}
