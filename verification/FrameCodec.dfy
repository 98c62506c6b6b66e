/**
  The length-prefixed frame codec. Canonical JSON is a parameter: an encoder that may fail and a
  strict decoder.
 */
module FrameCodec {
  import opened Results
  import opened Octets
  import opened Sequences

  const MAX_FRAME_BYTES: nat := 16 * 1024 * 1024
  const LEN_PREFIX_BYTES: nat := 4
  const U32_MAX: nat := 0xFFFF_FFFF

  datatype FrameError = FrameTooLarge(len: nat) | EmptyFrame | EncodeFailed | DecodeFailed

  datatype Json<!T> = Json(encode: T -> Option<Bytes>, decode: Bytes -> Option<T>)

  /** The strict decoder undoes the canonical encoder, whose output is never empty. */
  ghost predicate IsLawful<T(!new)>(json: Json<T>) {
    forall m :: json.encode(m).Some? ==> json.decode(json.encode(m).value) == Some(m) && json.encode(m).value != []
  }

  // ---------------------------------------------------------------- the length prefix

  function BigEndian(n: nat): Bytes
    requires n <= U32_MAX
  {
    [n / 0x100_0000, n / 0x1_0000 % 256, n / 256 % 256, n % 256]
  }

  function FromBigEndian(b: Bytes): nat
    requires |b| == 4
  {
    var b0: int, b1: int, b2: int, b3: int := b[0], b[1], b[2], b[3];
    ((b0 * 256 + b1) * 256 + b2) * 256 + b3
  }

  lemma BigEndianRoundTrip(n: nat)
    requires n <= U32_MAX
    ensures FromBigEndian(BigEndian(n)) == n
    ensures var b := BigEndian(n);
            n == 0x100_0000 * b[0] as int + 0x1_0000 * b[1] as int + 0x100 * b[2] as int + b[3] as int
  {
    assert n / 0x1_0000 == (n / 0x100_0000) * 256 + n / 0x1_0000 % 256;
    assert n / 256 == (n / 0x1_0000) * 256 + n / 256 % 256;
  }

  // ---------------------------------------------------------------- frames

  function EncodeFrame<T>(json: Json<T>, m: T): Result<Bytes, FrameError> {
    match json.encode(m)
    case None => Err(EncodeFailed)
    case Some(body) =>
      if |body| > U32_MAX then Err(FrameTooLarge(U32_MAX))
      else if |body| > MAX_FRAME_BYTES then Err(FrameTooLarge(|body|))
      else Ok(BigEndian(|body|) + body)
  }

  /** A frame comes back exactly when the canonical body exists and fits, and it reads back in front of any bytes. */
  method EncodeFrameInto<T(!new)>(json: Json<T>, m: T) returns (r: Result<Bytes, FrameError>)
    ensures r == EncodeFrame(json, m)
    ensures r.Ok? <==> json.encode(m).Some? && |json.encode(m).value| <= MAX_FRAME_BYTES
    ensures r.Ok? && IsLawful(json) ==>
              forall rest: Bytes :: TryDecodeFrame(json, r.value + rest) == Ok(Some(Frame(m, |r.value|)))
  {
    if EncodeFrame(json, m).Ok? && IsLawful(json) {
      forall rest: Bytes
        ensures TryDecodeFrame(json, EncodeFrame(json, m).value + rest)
                == Ok(Some(Frame(m, |EncodeFrame(json, m).value|)))
      {
        FrameRoundTrip(json, m, rest);
      }
    }
    var encoded := json.encode(m);
    if encoded.None? { return Err(EncodeFailed); }
    var body := encoded.value;
    if |body| > U32_MAX { return Err(FrameTooLarge(U32_MAX)); }
    if |body| > MAX_FRAME_BYTES { return Err(FrameTooLarge(|body|)); }
    var out: Bytes := [];
    out := out + BigEndian(|body|);
    out := out + body;
    assert out == BigEndian(|body|) + body;
    return Ok(out);
  }

  datatype Frame<T> = Frame(value: T, consumed: nat)

  /** One frame off the front of a buffer; `Ok(None)` asks for more bytes. */
  function TryDecodeFrame<T>(json: Json<T>, buf: Bytes): (r: Result<Option<Frame<T>>, FrameError>)
    ensures r.Ok? && r.value.Some? ==> LEN_PREFIX_BYTES < r.value.value.consumed <= |buf|
  {
    if |buf| < LEN_PREFIX_BYTES then Ok(None)
    else
      var len := FromBigEndian(buf[..4]);
      if len == 0 then Err(EmptyFrame)
      else if len > MAX_FRAME_BYTES then Err(FrameTooLarge(len))
      else
        var total := LEN_PREFIX_BYTES + len;
        if |buf| < total then Ok(None)
        else
          match json.decode(buf[LEN_PREFIX_BYTES..total])
          case None => Err(DecodeFailed)
          case Some(v) => Ok(Some(Frame(v, total)))
  }

  /** A frame at the front of any buffer decodes to its message and consumes exactly itself. */
  lemma FrameRoundTrip<T(!new)>(json: Json<T>, m: T, rest: Bytes)
    requires IsLawful(json) && EncodeFrame(json, m).Ok?
    ensures var frame := EncodeFrame(json, m).value;
            TryDecodeFrame(json, frame + rest) == Ok(Some(Frame(m, |frame|)))
  {
    var body := json.encode(m).value;
    var frame := EncodeFrame(json, m).value;
    var buf := frame + rest;
    BigEndianRoundTrip(|body|);
    assert buf[..4] == BigEndian(|body|);
    assert buf[4..4 + |body|] == body;
  }

  /** Any strict prefix of a frame asks for more bytes and nothing else. */
  lemma StrictPrefixWaits<T(!new)>(json: Json<T>, m: T, n: nat)
    requires IsLawful(json) && EncodeFrame(json, m).Ok? && n < |EncodeFrame(json, m).value|
    ensures TryDecodeFrame(json, EncodeFrame(json, m).value[..n]) == Ok(None)
  {
    var body := json.encode(m).value;
    var frame := EncodeFrame(json, m).value;
    BigEndianRoundTrip(|body|);
    if n >= 4 { assert frame[..n][..4] == BigEndian(|body|); }
  }

  /** More bytes behind it never change a verdict already reached. */
  lemma VerdictIsStable<T>(json: Json<T>, buf: Bytes, more: Bytes)
    requires TryDecodeFrame(json, buf) != Ok(None)
    ensures TryDecodeFrame(json, buf + more) == TryDecodeFrame(json, buf)
  {
    assert (buf + more)[..4] == buf[..4];
    var len := FromBigEndian(buf[..4]);
    if 0 < len <= MAX_FRAME_BYTES {
      assert (buf + more)[4..4 + len] == buf[4..4 + len];
    }
  }

  /**
    The whole verdict on a buffer. Its first four bytes, most significant first, give the length of a
    body, which must be from 1 to 16777216; the body is asked for only when that holds.
   */
  lemma DecodeTells<T>(json: Json<T>, buf: Bytes)
    ensures var r := TryDecodeFrame(json, buf);
            if |buf| < 4 then r == Ok(None)
            else
              var len := 0x100_0000 * buf[0] as int + 0x1_0000 * buf[1] as int + 0x100 * buf[2] as int + buf[3] as int;
              && (r == Err(EmptyFrame) <==> len == 0)
              && (forall n :: r == Err(FrameTooLarge(n)) <==> n == len > 16777216)
              && (r == Ok(None) <==> 0 < len <= 16777216 && |buf| < 4 + len)
              && (r == Err(DecodeFailed)
                  <==> 0 < len <= 16777216 && 4 + len <= |buf| && json.decode(buf[4..4 + len]).None?)
              && r != Err(EncodeFailed)
  {
  }

  /** Encoding fails without a body or on one past 16777216 bytes, whose length it names up to what 32 bits hold. */
  lemma EncodeTells<T>(json: Json<T>, m: T)
    ensures var r := EncodeFrame(json, m);
            && (r == Err(EncodeFailed) <==> json.encode(m).None?)
            && (forall n :: r == Err(FrameTooLarge(n))
                            <==> json.encode(m).Some? && |json.encode(m).value| > 16777216
                                 && n == Least(|json.encode(m).value|, 0xFFFF_FFFF))
  {
  }

  function Least(a: nat, b: nat): nat { if a <= b then a else b }

  // ---------------------------------------------------------------- streams

  /** The state of a stream reader: messages so far, bytes left over, and the error that stopped it. */
  datatype Stream<T> = Stream(messages: seq<T>, rest: Bytes, error: Option<FrameError>)

  /** Decode frames off the front until more bytes are needed or one is bad. */
  function DecodeAll<T>(json: Json<T>, buf: Bytes): Stream<T>
    decreases |buf|
  {
    match TryDecodeFrame(json, buf)
    case Err(error) => Stream([], buf, Some(error))
    case Ok(None) => Stream([], buf, None)
    case Ok(Some(Frame(v, n))) =>
      var s := DecodeAll(json, buf[n..]);
      s.(messages := [v] + s.messages)
  }

  /** One chunk arrives. After an error nothing more is read. */
  function Feed<T>(json: Json<T>, s: Stream<T>, chunk: Bytes): Stream<T> {
    if s.error.Some? then s
    else
      var more := DecodeAll(json, s.rest + chunk);
      more.(messages := s.messages + more.messages)
  }

  function FeedAll<T>(json: Json<T>, s: Stream<T>, chunks: seq<Bytes>): Stream<T>
    decreases |chunks|
  {
    if chunks == [] then s else FeedAll(json, Feed(json, s, chunks[0]), chunks[1..])
  }

  function Concat(chunks: seq<Bytes>): Bytes {
    if chunks == [] then [] else chunks[0] + Concat(chunks[1..])
  }

  /** Two reader states that behave alike: same messages, same error, same leftover unless stopped. */
  ghost predicate SameReading<T>(a: Stream<T>, b: Stream<T>) {
    a.messages == b.messages && a.error == b.error && (a.error.None? ==> a.rest == b.rest)
  }

  /** Decoding now and continuing later is decoding everything at once. */
  lemma {:induction false} DecodeInTwoParts<T>(json: Json<T>, buf: Bytes, more: Bytes)
    ensures SameReading(DecodeAll(json, buf + more), Feed(json, DecodeAll(json, buf), more))
    decreases |buf|
  {
    match TryDecodeFrame(json, buf) {
      case Err(_) => VerdictIsStable(json, buf, more);
      case Ok(None) =>
        var later := DecodeAll(json, buf + more);
        assert [] + later.messages == later.messages;
      case Ok(Some(Frame(v, n))) =>
        VerdictIsStable(json, buf, more);
        assert (buf + more)[n..] == buf[n..] + more;
        DecodeInTwoParts(json, buf[n..], more);
        PrependKeepsReading(json, DecodeAll(json, buf[n..]), v, more);
    }
  }

  lemma PrependKeepsReading<T>(json: Json<T>, s: Stream<T>, v: T, more: Bytes)
    ensures var p := s.(messages := [v] + s.messages);
            var fed := Feed(json, s, more);
            Feed(json, p, more) == fed.(messages := [v] + fed.messages)
  {
  }

  lemma FeedRespectsReading<T>(json: Json<T>, a: Stream<T>, b: Stream<T>, chunk: Bytes)
    requires SameReading(a, b)
    ensures SameReading(Feed(json, a, chunk), Feed(json, b, chunk))
  {
  }

  lemma {:induction false} FeedAllRespectsReading<T>(json: Json<T>, a: Stream<T>, b: Stream<T>, chunks: seq<Bytes>)
    requires SameReading(a, b)
    ensures SameReading(FeedAll(json, a, chunks), FeedAll(json, b, chunks))
    decreases |chunks|
  {
    if chunks != [] {
      FeedRespectsReading(json, a, b, chunks[0]);
      FeedAllRespectsReading(json, Feed(json, a, chunks[0]), Feed(json, b, chunks[0]), chunks[1..]);
    }
  }

  /**
    Chunking never matters: for any byte stream, valid or not, and any way of cutting it, the
    messages, the error and the leftover are those of decoding it in one piece.
   */
  lemma {:induction false} ChunkingNeverMatters<T>(json: Json<T>, sofar: Bytes, chunks: seq<Bytes>)
    ensures SameReading(FeedAll(json, DecodeAll(json, sofar), chunks), DecodeAll(json, sofar + Concat(chunks)))
    decreases |chunks|
  {
    if chunks == [] {
      assert sofar + Concat(chunks) == sofar;
    } else {
      var head, rest := chunks[0], chunks[1..];
      DecodeInTwoParts(json, sofar, head);
      FeedAllRespectsReading(json, DecodeAll(json, sofar + head), Feed(json, DecodeAll(json, sofar), head), rest);
      ChunkingNeverMatters(json, sofar + head, rest);
      Associates(sofar, head, Concat(rest));
    }
  }

  // ---------------------------------------------------------------- streams of frames

  ghost predicate AllEncode<T>(json: Json<T>, ms: seq<T>) {
    forall i :: 0 <= i < |ms| ==> EncodeFrame(json, ms[i]).Ok?
  }

  ghost function FramesOf<T>(json: Json<T>, ms: seq<T>): Bytes
    requires AllEncode(json, ms)
  {
    if ms == [] then [] else EncodeFrame(json, ms[0]).value + FramesOf(json, ms[1..])
  }

  /** A stream of frames followed by part of another decodes to exactly those messages. */
  lemma {:induction false} StreamRoundTrip<T(!new)>(json: Json<T>, ms: seq<T>, cut: Bytes)
    requires IsLawful(json) && AllEncode(json, ms) && TryDecodeFrame(json, cut) == Ok(None)
    ensures DecodeAll(json, FramesOf(json, ms) + cut) == Stream(ms, cut, None)
    decreases |ms|
  {
    if ms == [] {
      assert FramesOf(json, ms) + cut == cut;
    } else {
      var frame := EncodeFrame(json, ms[0]).value;
      var rest := FramesOf(json, ms[1..]) + cut;
      assert FramesOf(json, ms) + cut == frame + rest;
      FrameRoundTrip(json, ms[0], rest);
      assert (frame + rest)[|frame|..] == rest;
      StreamRoundTrip(json, ms[1..], cut);
      assert [ms[0]] + ms[1..] == ms;
    }
  }

  /** The two together: any chunking of frames, the last possibly cut short, yields the messages in order. */
  lemma ChunkedStreamRoundTrip<T(!new)>(json: Json<T>, ms: seq<T>, last: T, n: nat, chunks: seq<Bytes>)
    requires IsLawful(json) && AllEncode(json, ms) && EncodeFrame(json, last).Ok? && n < |EncodeFrame(json, last).value|
    requires Concat(chunks) == FramesOf(json, ms) + EncodeFrame(json, last).value[..n]
    ensures FeedAll(json, DecodeAll(json, []), chunks) == Stream(ms, EncodeFrame(json, last).value[..n], None)
  {
    StrictPrefixWaits(json, last, n);
    StreamRoundTrip(json, ms, EncodeFrame(json, last).value[..n]);
    ChunkingNeverMatters(json, [], chunks);
    assert [] + Concat(chunks) == Concat(chunks);
  }
}
