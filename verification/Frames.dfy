/** The control frames of the wire protocol: a 4-byte big-endian length, then a body.

    The body is the bincode 1 form of a frame: fixed-width little-endian integers, a 4-byte variant
    number, an 8-byte string length and a 1-byte option tag. The theorems say that frames written one
    after the other are read back as they were, and exactly which bytes a reader takes for a frame.
 */
module Frames {
  import opened Arith
  import opened Wrappers
  import opened Utf8

  const MAX_FRAME_BYTES := 65536
  const U32_MAX := 0xFFFF_FFFF

  type u8 = n: nat | n < 0x100

  /** A Rust string: well-formed UTF-8, no longer than memory can hold. */
  type Str = b: seq<byte> | Valid(b) && |b| < 0x8000_0000_0000_0000

  datatype TunnelKind = Http(subdomain: Option<Str>) | Tcp(port: u16)

  datatype ControlFrame =
    | Register(version: u8, token: Option<Str>, kind: TunnelKind)
    | Registered(publicUrl: Str)
    | NewConn(peerAddr: Str)
    | Ping
    | Error(code: u16, message: Str)

  // ----- integers -----

  function Pow256(k: nat): nat {
    if k == 0 then 1 else 256 * Pow256(k - 1)
  }

  function LittleEndian(v: nat, k: nat): (b: seq<byte>)
    ensures |b| == k
  {
    if k == 0 then [] else [v % 256] + LittleEndian(v / 256, k - 1)
  }

  function FromLittleEndian(b: seq<byte>): (v: nat)
    ensures v < Pow256(|b|)
  {
    if b == [] then 0 else b[0] + 256 * FromLittleEndian(b[1..])
  }

  function BigEndian(v: nat, k: nat): (b: seq<byte>)
    ensures |b| == k
  {
    if k == 0 then [] else BigEndian(v / 256, k - 1) + [v % 256]
  }

  function FromBigEndian(b: seq<byte>): (v: nat)
    ensures v < Pow256(|b|)
  {
    if b == [] then 0 else 256 * FromBigEndian(b[..|b| - 1]) + b[|b| - 1]
  }

  lemma {:induction false} LittleEndianRoundTrip(v: nat, k: nat)
    requires v < Pow256(k)
    ensures FromLittleEndian(LittleEndian(v, k)) == v
  {
    if k > 0 {
      LittleEndianRoundTrip(v / 256, k - 1);
      assert LittleEndian(v, k)[1..] == LittleEndian(v / 256, k - 1);
    }
  }

  lemma {:induction false} LittleEndianCanonical(b: seq<byte>)
    ensures LittleEndian(FromLittleEndian(b), |b|) == b
  {
    if b != [] {
      LittleEndianCanonical(b[1..]);
      var v, w := FromLittleEndian(b), FromLittleEndian(b[1..]);
      assert v % 256 == b[0] && v / 256 == w;
      assert [b[0]] + b[1..] == b;
    }
  }

  lemma {:induction false} BigEndianRoundTrip(v: nat, k: nat)
    requires v < Pow256(k)
    ensures FromBigEndian(BigEndian(v, k)) == v
  {
    if k > 0 {
      BigEndianRoundTrip(v / 256, k - 1);
      assert BigEndian(v, k)[..k - 1] == BigEndian(v / 256, k - 1);
    }
  }

  lemma {:induction false} BigEndianCanonical(b: seq<byte>)
    ensures BigEndian(FromBigEndian(b), |b|) == b
  {
    if b != [] {
      var front, last := b[..|b| - 1], b[|b| - 1];
      BigEndianCanonical(front);
      var v, w := FromBigEndian(b), FromBigEndian(front);
      assert v % 256 == last && v / 256 == w;
      assert front + [last] == b;
    }
  }

  lemma Powers()
    ensures Pow256(1) == 0x100 && Pow256(2) == 0x1_0000 && Pow256(4) == 0x1_0000_0000
    ensures Pow256(8) == 0x1_0000_0000_0000_0000
  {
    assert Pow256(3) == 256 * Pow256(2);
    assert Pow256(5) == 256 * Pow256(4);
    assert Pow256(7) == 256 * Pow256(6);
  }

  // ----- the body -----

  function EncodeStr(s: Str): seq<byte> {
    LittleEndian(|s|, 8) + s
  }

  function EncodeOption(o: Option<Str>): seq<byte> {
    match o
    case None => [0]
    case Some(s) => [1] + EncodeStr(s)
  }

  function EncodeKind(k: TunnelKind): seq<byte> {
    match k
    case Http(subdomain) => LittleEndian(0, 4) + EncodeOption(subdomain)
    case Tcp(port) => LittleEndian(1, 4) + LittleEndian(port, 2)
  }

  function Encode(f: ControlFrame): seq<byte> {
    match f
    case Register(version, token, kind) => LittleEndian(0, 4) + ([version] + (EncodeOption(token) + EncodeKind(kind)))
    case Registered(publicUrl) => LittleEndian(1, 4) + EncodeStr(publicUrl)
    case NewConn(peerAddr) => LittleEndian(2, 4) + EncodeStr(peerAddr)
    case Ping => LittleEndian(3, 4)
    case Error(code, message) => LittleEndian(4, 4) + (LittleEndian(code, 2) + EncodeStr(message))
  }

  /** A decoded value and the bytes left over. */
  datatype Parsed<+T> = Parsed(value: T, rest: seq<byte>)

  function DecodeInt(b: seq<byte>, k: nat): Option<Parsed<nat>> {
    if |b| < k then None else Some(Parsed(FromLittleEndian(b[..k]), b[k..]))
  }

  function DecodeStr(b: seq<byte>): Option<Parsed<Str>> {
    var len :- DecodeInt(b, 8);
    if len.value >= 0x8000_0000_0000_0000 || len.value > |len.rest| then None
    else if !Valid(len.rest[..len.value]) then None
    else Some(Parsed(len.rest[..len.value], len.rest[len.value..]))
  }

  function DecodeOption(b: seq<byte>): Option<Parsed<Option<Str>>> {
    if b == [] then None
    else if b[0] == 0 then Some(Parsed(None, b[1..]))
    else if b[0] == 1 then
      var s :- DecodeStr(b[1..]);
      Some(Parsed(Some(s.value), s.rest))
    else None
  }

  function DecodeKind(b: seq<byte>): Option<Parsed<TunnelKind>> {
    var variant :- DecodeInt(b, 4);
    if variant.value == 0 then
      var o :- DecodeOption(variant.rest);
      Some(Parsed(Http(o.value), o.rest))
    else if variant.value == 1 then
      var port :- DecodeInt(variant.rest, 2);
      DecodedPort(port)
    else None
  }

  function DecodedPort(port: Parsed<nat>): Option<Parsed<TunnelKind>> {
    if port.value < 0x1_0000 then Some(Parsed(Tcp(port.value), port.rest)) else None
  }

  function DecodeRegister(b: seq<byte>): Option<Parsed<ControlFrame>> {
    if b == [] then None
    else
      var token :- DecodeOption(b[1..]);
      var kind :- DecodeKind(token.rest);
      Some(Parsed(Register(b[0], token.value, kind.value), kind.rest))
  }

  function DecodeError(b: seq<byte>): Option<Parsed<ControlFrame>> {
    var code :- DecodeInt(b, 2);
    var message :- DecodeStr(code.rest);
    if code.value < 0x1_0000 then Some(Parsed(Error(code.value, message.value), message.rest)) else None
  }

  function Decode(b: seq<byte>): Option<Parsed<ControlFrame>> {
    var variant :- DecodeInt(b, 4);
    if variant.value == 0 then DecodeRegister(variant.rest)
    else if variant.value == 1 then
      var s :- DecodeStr(variant.rest);
      Some(Parsed(Registered(s.value), s.rest))
    else if variant.value == 2 then
      var s :- DecodeStr(variant.rest);
      Some(Parsed(NewConn(s.value), s.rest))
    else if variant.value == 3 then Some(Parsed(Ping, variant.rest))
    else if variant.value == 4 then DecodeError(variant.rest)
    else None
  }

  // ----- encoding and decoding undo each other -----

  lemma IntRoundTrip(v: nat, k: nat, tail: seq<byte>)
    requires v < Pow256(k)
    ensures DecodeInt(LittleEndian(v, k) + tail, k) == Some(Parsed(v, tail))
  {
    LittleEndianRoundTrip(v, k);
    assert (LittleEndian(v, k) + tail)[..k] == LittleEndian(v, k);
  }

  lemma IntCanonical(b: seq<byte>, k: nat)
    requires DecodeInt(b, k).Some?
    ensures var p := DecodeInt(b, k).value;
            b == LittleEndian(p.value, k) + p.rest && p.value < Pow256(k)
  {
    hide LittleEndian, FromLittleEndian;
    LittleEndianCanonical(b[..k]);
  }

  lemma StrRoundTrip(s: Str, tail: seq<byte>)
    ensures DecodeStr(EncodeStr(s) + tail) == Some(Parsed(s, tail))
  {
    hide Valid;
    Powers();
    IntRoundTrip(|s|, 8, s + tail);
    assert EncodeStr(s) + tail == LittleEndian(|s|, 8) + (s + tail);
    assert (s + tail)[..|s|] == s && (s + tail)[|s|..] == tail;
  }

  lemma StrCanonical(b: seq<byte>)
    requires DecodeStr(b).Some?
    ensures b == EncodeStr(DecodeStr(b).value.value) + DecodeStr(b).value.rest
  {
    hide Valid;
    IntCanonical(b, 8);
  }

  lemma OptionRoundTrip(o: Option<Str>, tail: seq<byte>)
    ensures DecodeOption(EncodeOption(o) + tail) == Some(Parsed(o, tail))
  {
    hide Valid;
    if o.Some? {
      StrRoundTrip(o.value, tail);
      assert (EncodeOption(o) + tail)[1..] == EncodeStr(o.value) + tail;
    }
  }

  lemma OptionCanonical(b: seq<byte>)
    requires DecodeOption(b).Some?
    ensures b == EncodeOption(DecodeOption(b).value.value) + DecodeOption(b).value.rest
  {
    hide Valid;
    if b[0] == 1 {
      StrCanonical(b[1..]);
    }
  }

  lemma KindRoundTrip(k: TunnelKind, tail: seq<byte>)
    ensures DecodeKind(EncodeKind(k) + tail) == Some(Parsed(k, tail))
  {
    hide Valid, LittleEndian, EncodeOption, DecodeOption, DecodeInt;
    Powers();
    match k
    case Http(o) =>
      OptionRoundTrip(o, tail);
      IntRoundTrip(0, 4, EncodeOption(o) + tail);
      assert EncodeKind(k) + tail == LittleEndian(0, 4) + (EncodeOption(o) + tail);
    case Tcp(port) =>
      IntRoundTrip(port, 2, tail);
      IntRoundTrip(1, 4, LittleEndian(port, 2) + tail);
      assert EncodeKind(k) + tail == LittleEndian(1, 4) + (LittleEndian(port, 2) + tail);
  }

  lemma KindCanonical(b: seq<byte>)
    requires DecodeKind(b).Some?
    ensures b == EncodeKind(DecodeKind(b).value.value) + DecodeKind(b).value.rest
  {
    hide Valid, LittleEndian, EncodeOption, DecodeOption, DecodeInt;
    var p := DecodeKind(b).value;
    var variant := DecodeInt(b, 4).value;
    IntCanonical(b, 4);
    if variant.value == 0 {
      OptionCanonical(variant.rest);
      assert EncodeKind(p.value) + p.rest
          == LittleEndian(0, 4) + (EncodeOption(p.value.subdomain) + p.rest);
    } else {
      IntCanonical(variant.rest, 2);
      assert EncodeKind(p.value) + p.rest == LittleEndian(1, 4) + (LittleEndian(p.value.port, 2) + p.rest);
    }
  }

  /** Decoding gives back the encoded frame and leaves whatever follows it. */
  lemma RoundTrip(f: ControlFrame, tail: seq<byte>)
    ensures Decode(Encode(f) + tail) == Some(Parsed(f, tail))
  {
    hide Valid, LittleEndian, EncodeOption, DecodeOption, DecodeInt, EncodeStr, DecodeStr, EncodeKind, DecodeKind;
    Powers();
    match f
    case Register(version, token, kind) =>
      KindRoundTrip(kind, tail);
      var b2 := EncodeKind(kind) + tail;
      OptionRoundTrip(token, b2);
      var b1 := EncodeOption(token) + b2;
      assert ([version] + b1)[1..] == b1;
      IntRoundTrip(0, 4, [version] + b1);
      assert Encode(f) + tail == LittleEndian(0, 4) + ([version] + b1);
    case Registered(s) =>
      StrRoundTrip(s, tail);
      IntRoundTrip(1, 4, EncodeStr(s) + tail);
      assert Encode(f) + tail == LittleEndian(1, 4) + (EncodeStr(s) + tail);
    case NewConn(s) =>
      StrRoundTrip(s, tail);
      IntRoundTrip(2, 4, EncodeStr(s) + tail);
      assert Encode(f) + tail == LittleEndian(2, 4) + (EncodeStr(s) + tail);
    case Ping =>
      IntRoundTrip(3, 4, tail);
    case Error(code, s) =>
      StrRoundTrip(s, tail);
      IntRoundTrip(code, 2, EncodeStr(s) + tail);
      var b1 := LittleEndian(code, 2) + (EncodeStr(s) + tail);
      IntRoundTrip(4, 4, b1);
      assert Encode(f) + tail == LittleEndian(4, 4) + b1;
  }

  /** Whatever decodes to a frame starts with the encoding of that frame. */
  lemma Canonical(b: seq<byte>)
    requires Decode(b).Some?
    ensures b == Encode(Decode(b).value.value) + Decode(b).value.rest
  {
    hide Valid, LittleEndian, EncodeOption, DecodeOption, DecodeInt, EncodeStr, DecodeStr, EncodeKind, DecodeKind;
    var p := Decode(b).value;
    var variant := DecodeInt(b, 4).value;
    var r := variant.rest;
    IntCanonical(b, 4);
    if variant.value == 0 {
      OptionCanonical(r[1..]);
      var token := DecodeOption(r[1..]).value;
      KindCanonical(token.rest);
      assert r == [r[0]] + r[1..];
      assert Encode(p.value) + p.rest
          == LittleEndian(0, 4) + ([r[0]] + (EncodeOption(token.value) + (EncodeKind(p.value.kind) + p.rest)));
    } else if variant.value == 1 {
      StrCanonical(r);
      assert Encode(p.value) + p.rest == LittleEndian(1, 4) + (EncodeStr(p.value.publicUrl) + p.rest);
    } else if variant.value == 2 {
      StrCanonical(r);
      assert Encode(p.value) + p.rest == LittleEndian(2, 4) + (EncodeStr(p.value.peerAddr) + p.rest);
    } else if variant.value == 4 {
      IntCanonical(r, 2);
      var code := DecodeInt(r, 2).value;
      StrCanonical(code.rest);
      assert Encode(p.value) + p.rest
          == LittleEndian(4, 4) + (LittleEndian(code.value, 2) + (EncodeStr(p.value.message) + p.rest));
    }
  }

  // ----- frames on a stream -----

  datatype WriteResult = Written | WriteTooLarge(len: nat)

  datatype ReadResult = Frame(frame: ControlFrame) | Eof | TooLarge(len: nat) | Io | Undecodable

  /** What a writer appends to a stream. */
  function WriteOutcome(f: ControlFrame): WriteResult {
    var len := |Encode(f)|;
    if len > U32_MAX then WriteTooLarge(U32_MAX)
    else if len > MAX_FRAME_BYTES then WriteTooLarge(len)
    else Written
  }

  function Wire(f: ControlFrame): seq<byte> {
    BigEndian(|Encode(f)|, 4) + Encode(f)
  }

  /** What a reader takes from the front of a stream, and what it leaves. */
  function ReadOutcome(b: seq<byte>): ReadResult {
    if |b| < 4 then Eof
    else
      var len := FromBigEndian(b[..4]);
      if len > MAX_FRAME_BYTES then TooLarge(len)
      else if |b| - 4 < len then Io
      else
        match Decode(b[4..4 + len])
        case Some(p) => Frame(p.value)
        case None => Undecodable
  }

  function ReadRest(b: seq<byte>): seq<byte> {
    if |b| < 4 then []
    else
      var len := FromBigEndian(b[..4]);
      if len > MAX_FRAME_BYTES then b[4..]
      else if |b| - 4 < len then []
      else b[4 + len..]
  }

  class Stream {
    var bytes: seq<byte>

    constructor ()
      ensures bytes == []
    {
      bytes := [];
    }

    method WriteAll(b: seq<byte>)
      modifies this
      ensures bytes == old(bytes) + b
    {
      bytes := bytes + b;
    }

    /** Fill a buffer from the stream; at the end of the stream what is left is lost. */
    method ReadExact(buf: array<byte>) returns (ok: bool)
      modifies this, buf
      ensures ok == (|old(bytes)| >= buf.Length)
      ensures ok ==> buf[..] == old(bytes)[..buf.Length]
      ensures bytes == if ok then old(bytes)[buf.Length..] else []
    {
      var n := 0;
      while n < buf.Length && bytes != []
        invariant n <= buf.Length && n + |bytes| == |old(bytes)|
        invariant buf[..n] == old(bytes)[..n]
        invariant bytes == old(bytes)[n..]
      {
        buf[n] := bytes[0];
        bytes := bytes[1..];
        n := n + 1;
      }
      ok := n == buf.Length;
    }

    method WriteFrame(f: ControlFrame) returns (r: WriteResult)
      modifies this
      ensures r == WriteOutcome(f)
      ensures bytes == if r.Written? then old(bytes) + Wire(f) else old(bytes)
    {
      hide Encode, BigEndian;
      var body := Encode(f);
      if |body| > U32_MAX {
        return WriteTooLarge(U32_MAX);
      }
      var len := |body|;
      if len > MAX_FRAME_BYTES {
        return WriteTooLarge(len);
      }
      WriteAll(BigEndian(len, 4));
      WriteAll(body);
      return Written;
    }

    method ReadFrame() returns (r: ReadResult)
      modifies this
      ensures r == ReadOutcome(old(bytes))
      ensures bytes == ReadRest(old(bytes))
    {
      hide Decode, Valid;
      var lenBuf := new byte[4];
      var ok := ReadExact(lenBuf);
      if !ok {
        return Eof;
      }
      var len := FromBigEndian(lenBuf[..]);
      if len > MAX_FRAME_BYTES {
        return TooLarge(len);
      }
      var body := new byte[len];
      ok := ReadExact(body);
      if !ok {
        return Io;
      }
      assert body[..] == old(bytes)[4..4 + len];
      var parsed := Decode(body[..]);
      if parsed.None? {
        return Undecodable;
      }
      return Frame(parsed.value.value);
    }
  }

  // ----- streams of frames -----

  ghost predicate Fits(f: ControlFrame) {
    |Encode(f)| <= MAX_FRAME_BYTES
  }

  function WireAll(fs: seq<ControlFrame>): seq<byte> {
    if fs == [] then [] else Wire(fs[0]) + WireAll(fs[1..])
  }

  /** The frames that n reads in a row return, if all of them return one, and the bytes they leave. */
  function ReadMany(b: seq<byte>, n: nat): Option<Parsed<seq<ControlFrame>>> {
    if n == 0 then Some(Parsed([], b))
    else if !ReadOutcome(b).Frame? then None
    else
      var more :- ReadMany(ReadRest(b), n - 1);
      Some(Parsed([ReadOutcome(b).frame] + more.value, more.rest))
  }

  lemma ReadAfterWrite(f: ControlFrame, tail: seq<byte>)
    requires Fits(f)
    ensures ReadOutcome(Wire(f) + tail) == Frame(f)
    ensures ReadRest(Wire(f) + tail) == tail
  {
    hide Decode, Encode, Valid, BigEndian;
    var body := Encode(f);
    var b := Wire(f) + tail;
    Powers();
    BigEndianRoundTrip(|body|, 4);
    assert b[..4] == BigEndian(|body|, 4);
    assert b[4..4 + |body|] == body && b[4 + |body|..] == tail;
    RoundTrip(f, []);
    assert body + [] == body;
  }

  /** Frames written one after the other are read back, and the bytes after them are untouched. */
  lemma {:induction false} FramesRoundTrip(fs: seq<ControlFrame>, tail: seq<byte>)
    requires forall f | f in fs :: Fits(f)
    ensures ReadMany(WireAll(fs) + tail, |fs|) == Some(Parsed(fs, tail))
  {
    hide Wire, ReadOutcome, ReadRest, Fits;
    if fs == [] {
      assert WireAll(fs) + tail == tail;
    } else {
      var rest := WireAll(fs[1..]) + tail;
      assert WireAll(fs) + tail == Wire(fs[0]) + rest;
      assert fs[0] in fs && forall f | f in fs[1..] :: f in fs;
      ReadAfterWrite(fs[0], rest);
      FramesRoundTrip(fs[1..], tail);
      assert [fs[0]] + fs[1..] == fs;
    }
  }

  /** No byte stream is two lists of frames. */
  lemma {:induction false} FramesInjective(fs: seq<ControlFrame>, gs: seq<ControlFrame>)
    requires (forall f | f in fs :: Fits(f)) && (forall g | g in gs :: Fits(g))
    requires WireAll(fs) == WireAll(gs)
    ensures fs == gs
  {
    hide Wire, ReadOutcome, ReadRest, Fits;
    if fs == [] && gs == [] {
    } else if fs == [] {
      WireNotEmpty(gs[0], WireAll(gs[1..]));
    } else if gs == [] {
      WireNotEmpty(fs[0], WireAll(fs[1..]));
    } else {
      assert fs[0] in fs && gs[0] in gs;
      ReadAfterWrite(fs[0], WireAll(fs[1..]));
      ReadAfterWrite(gs[0], WireAll(gs[1..]));
      assert (forall f | f in fs[1..] :: f in fs) && (forall g | g in gs[1..] :: g in gs);
      FramesInjective(fs[1..], gs[1..]);
      assert [fs[0]] + fs[1..] == fs && [gs[0]] + gs[1..] == gs;
    }
  }

  lemma WireNotEmpty(f: ControlFrame, tail: seq<byte>)
    ensures |Wire(f) + tail| >= 4
  {
  }

  /** A stream that starts with a length, the encoding of f and padding the length covers as well. */
  predicate PaddedFrame(b: seq<byte>, f: ControlFrame, padding: seq<byte>, rest: seq<byte>) {
    var len := |Encode(f)| + |padding|;
    && len <= MAX_FRAME_BYTES
    && b == BigEndian(len, 4) + Encode(f) + padding + rest
  }

  lemma ReadSkipsPadding(b: seq<byte>, f: ControlFrame, padding: seq<byte>, rest: seq<byte>)
    requires PaddedFrame(b, f, padding, rest)
    ensures ReadOutcome(b) == Frame(f) && ReadRest(b) == rest
  {
    hide Decode, Encode, Valid, BigEndian, FromBigEndian;
    var len := |Encode(f)| + |padding|;
    Powers();
    BigEndianRoundTrip(len, 4);
    assert b[..4] == BigEndian(len, 4);
    assert b[4..4 + len] == Encode(f) + padding;
    assert b[4 + len..] == rest;
    RoundTrip(f, padding);
  }

  lemma ReadFindsPadding(b: seq<byte>) returns (padding: seq<byte>)
    requires ReadOutcome(b).Frame?
    ensures PaddedFrame(b, ReadOutcome(b).frame, padding, ReadRest(b))
  {
    hide Decode, Encode, Valid, BigEndian, FromBigEndian;
    var len := FromBigEndian(b[..4]);
    var body := b[4..4 + len];
    Canonical(body);
    padding := Decode(body).value.rest;
    BigEndianCanonical(b[..4]);
    assert b == b[..4] + body + b[4 + len..];
  }

  /** A reader takes f from a stream, and leaves `rest`, exactly when the stream is a length of at most
      MAX_FRAME_BYTES, the encoding of f, padding that the length covers and the decoder skips, and `rest`. */
  lemma ReadIff(b: seq<byte>, f: ControlFrame, rest: seq<byte>)
    ensures ReadOutcome(b) == Frame(f) && ReadRest(b) == rest
       <==> exists padding :: PaddedFrame(b, f, padding, rest)
  {
    hide ReadOutcome, ReadRest, PaddedFrame;
    if ReadOutcome(b) == Frame(f) {
      var padding := ReadFindsPadding(b);
    }
    forall padding | PaddedFrame(b, f, padding, rest)
      ensures ReadOutcome(b) == Frame(f) && ReadRest(b) == rest
    {
      ReadSkipsPadding(b, f, padding, rest);
    }
  }

  // ----- when a frame is written, and why one cannot be read -----

  /** Exactly the frames of up to 64 KiB are written; of any other the writer reports the size, up to 2^32 - 1. */
  lemma WrittenIff(f: ControlFrame)
    ensures WriteOutcome(f) == Written <==> |Encode(f)| <= 64 * 1024
    ensures Fits(f) <==> WriteOutcome(f) == Written
    ensures |Encode(f)| > 64 * 1024 ==>
              WriteOutcome(f) == WriteTooLarge(if |Encode(f)| < 0x1_0000_0000 then |Encode(f)| else 0xFFFF_FFFF)
  {
  }

  /** The length that four bytes announce: the first byte is the most significant one. */
  function Announced(b: seq<byte>): nat
    requires |b| >= 4
  {
    var b0: nat, b1: nat, b2: nat, b3: nat := b[0], b[1], b[2], b[3];
    0x100_0000 * b0 + 0x1_0000 * b1 + 0x100 * b2 + b3
  }

  lemma AnnouncedIs(b: seq<byte>)
    requires |b| >= 4
    ensures FromBigEndian(b[..4]) == Announced(b)
  {
    var b0: nat, b1: nat, b2: nat := b[0], b[1], b[2];
    assert b[..4][..3] == b[..3] && b[..3][..2] == b[..2] && b[..2][..1] == b[..1] && b[..1][..0] == [];
    assert FromBigEndian(b[..1]) == b0;
    assert FromBigEndian(b[..2]) == 0x100 * b0 + b1;
    assert FromBigEndian(b[..3]) == 0x1_0000 * b0 + 0x100 * b1 + b2;
  }

  /** A body that starts with no encoding of a frame. */
  ghost predicate NoFrame(body: seq<byte>) {
    forall f: ControlFrame :: !(Encode(f) <= body)
  }

  lemma DecodesIff(body: seq<byte>)
    ensures Decode(body).None? <==> NoFrame(body)
  {
    hide Encode, Decode;
    if Decode(body).Some? {
      Canonical(body);
      assert Encode(Decode(body).value.value) <= body;
    }
    forall f: ControlFrame | Encode(f) <= body
      ensures Decode(body).Some?
    {
      RoundTrip(f, body[|Encode(f)|..]);
      assert Encode(f) + body[|Encode(f)|..] == body;
    }
  }

  /** Every failure of a reader, and nothing else, means what its name says. */
  lemma ReadFailureIff(b: seq<byte>)
    ensures ReadOutcome(b) == Eof <==> |b| < 4
    ensures forall n :: ReadOutcome(b) == TooLarge(n) <==> |b| >= 4 && n == Announced(b) > 64 * 1024
    ensures ReadOutcome(b) == Io <==> |b| >= 4 && Announced(b) <= 64 * 1024 && |b| < 4 + Announced(b)
    ensures ReadOutcome(b) == Undecodable
       <==> |b| >= 4 && Announced(b) <= 64 * 1024 && |b| >= 4 + Announced(b) && NoFrame(b[4..4 + Announced(b)])
  {
    hide Decode, NoFrame, FromBigEndian;
    if |b| >= 4 {
      AnnouncedIs(b);
      hide Announced;
      if |b| >= 4 + Announced(b) {
        DecodesIff(b[4..4 + Announced(b)]);
      }
    }
  }

  /** A stream that ends within a frame is used up; after a length that is too large the body is still there, and
      after a body that is no frame the next frame comes. */
  lemma LeftAfterFailure(b: seq<byte>)
    ensures ReadOutcome(b) == Eof || ReadOutcome(b) == Io ==> ReadRest(b) == []
    ensures ReadOutcome(b).TooLarge? ==> |b| >= 4 && ReadRest(b) == b[4..]
    ensures ReadOutcome(b) == Undecodable ==> 4 + Announced(b) <= |b| && ReadRest(b) == b[4 + Announced(b)..]
  {
    hide Decode, FromBigEndian;
    if |b| >= 4 {
      AnnouncedIs(b);
    }
  }

  // ----- the bytes of a frame -----

  /** A small number in four and in eight bytes, least significant first. */
  function FourBytes(v: byte): seq<byte> {
    [v, 0, 0, 0]
  }

  function EightBytes(v: byte): seq<byte> {
    [v, 0, 0, 0, 0, 0, 0, 0]
  }

  lemma {:induction false} ZeroBytes(k: nat)
    ensures forall i | 0 <= i < k :: LittleEndian(0, k)[i] == 0 && BigEndian(0, k)[i] == 0
  {
    if k > 0 {
      assert LittleEndian(0, k) == [0] + LittleEndian(0, k - 1) && BigEndian(0, k) == BigEndian(0, k - 1) + [0];
      hide LittleEndian, BigEndian;
      ZeroBytes(k - 1);
    }
  }

  lemma SmallInt(v: nat, k: nat)
    requires v < 256 && k > 0
    ensures LittleEndian(v, k)[0] == v && forall i | 0 < i < k :: LittleEndian(v, k)[i] == 0
    ensures BigEndian(v, k)[k - 1] == v && forall i | 0 <= i < k - 1 :: BigEndian(v, k)[i] == 0
  {
    assert LittleEndian(v, k) == [v] + LittleEndian(0, k - 1) && BigEndian(v, k) == BigEndian(0, k - 1) + [v];
    hide LittleEndian, BigEndian;
    ZeroBytes(k - 1);
  }

  lemma SmallInts(v: nat)
    requires v < 256
    ensures LittleEndian(v, 4) == FourBytes(v) && LittleEndian(v, 8) == EightBytes(v)
    ensures BigEndian(v, 4) == [0, 0, 0, v]
  {
    hide LittleEndian, BigEndian;
    SmallInt(v, 4);
    SmallInt(v, 8);
  }

  lemma TwoBytes(v: u16)
    ensures LittleEndian(v, 2) == [v % 256, v / 256]
  {
    var w: nat := v / 256;
    assert w < 256 && w % 256 == w && LittleEndian(w, 1) == [w];
  }

  lemma TextBytes(s: Str)
    requires |s| < 256
    ensures EncodeStr(s) == EightBytes(|s|) + s
  {
    hide LittleEndian, EightBytes, FourBytes, BigEndian;
    SmallInts(|s|);
  }

  lemma VariantBytes()
    ensures LittleEndian(0, 4) == FourBytes(0) && LittleEndian(1, 4) == FourBytes(1)
    ensures LittleEndian(2, 4) == FourBytes(2)
    ensures LittleEndian(3, 4) == FourBytes(3) && LittleEndian(4, 4) == FourBytes(4)
  {
    hide LittleEndian, EightBytes, FourBytes, BigEndian;
    SmallInts(0);
    SmallInts(1);
    SmallInts(2);
    SmallInts(3);
    SmallInts(4);
  }

  lemma PingBytes()
    ensures Encode(Ping) == [3, 0, 0, 0] && Wire(Ping) == [0, 0, 0, 4, 3, 0, 0, 0]
  {
    hide LittleEndian, BigEndian;
    VariantBytes();
    SmallInts(4);
  }

  /** The bytes of each frame: the number of the variant, then the fields in the order of their declaration. */
  lemma FrameBytes(s: Str, code: u16)
    requires |s| < 256
    ensures Encode(Registered(s)) == FourBytes(1) + (EightBytes(|s|) + s)
    ensures Encode(NewConn(s)) == FourBytes(2) + (EightBytes(|s|) + s)
    ensures Encode(Error(code, s)) == FourBytes(4) + ([code % 256, code / 256] + (EightBytes(|s|) + s))
  {
    hide LittleEndian, EightBytes, FourBytes, EncodeStr;
    VariantBytes();
    TextBytes(s);
    TwoBytes(code);
  }

  lemma KindBytes(port: u16, s: Str)
    requires |s| < 256
    ensures EncodeKind(Http(None)) == FourBytes(0) + [0]
    ensures EncodeKind(Http(Some(s))) == FourBytes(0) + ([1] + (EightBytes(|s|) + s))
    ensures EncodeKind(Tcp(port)) == FourBytes(1) + [port % 256, port / 256]
  {
    hide LittleEndian, EightBytes, FourBytes, EncodeStr;
    VariantBytes();
    TextBytes(s);
    TwoBytes(port);
  }

  lemma RegisterBytes(version: u8, token: Str, kind: TunnelKind)
    requires |token| < 256
    ensures Encode(Register(version, None, kind)) == FourBytes(0) + ([version] + ([0] + EncodeKind(kind)))
    ensures Encode(Register(version, Some(token), kind))
         == FourBytes(0) + ([version] + (([1] + (EightBytes(|token|) + token)) + EncodeKind(kind)))
  {
    hide LittleEndian, EightBytes, FourBytes, EncodeStr, EncodeKind;
    VariantBytes();
    TextBytes(token);
  }
}
