/**
 The length-prefixed wire format that client and server share: every body travels
 behind its length, four bytes in network byte order.
 */
module Framing {
  import opened Wrappers

  type Byte = b: int | 0 <= b < 0x100

  const TWO_TO_THE_32: int := 0x1_0000_0000
  const HEADER_LENGTH := 4
  const MAX_BODY_LENGTH := 8192

  /** The four bytes of a 32-bit length, most significant first. */
  function BigEndian(n: int): (b: seq<Byte>)
    requires 0 <= n < TWO_TO_THE_32
    ensures |b| == HEADER_LENGTH
  {
    [n / 0x100_0000, n / 0x1_0000 % 0x100, n / 0x100 % 0x100, n % 0x100]
  }

  /** The length that four received bytes stand for. */
  function FromBigEndian(b: seq<Byte>): (n: int)
    requires |b| == HEADER_LENGTH
    ensures 0 <= n < TWO_TO_THE_32
  {
    var b0: int, b1: int, b2: int, b3: int := b[0], b[1], b[2], b[3];
    ((b0 * 0x100 + b1) * 0x100 + b2) * 0x100 + b3
  }

  /** The first byte of a header has the highest place value. */
  lemma MostSignificantFirst(n: int)
    requires 0 <= n < TWO_TO_THE_32
    ensures var b := BigEndian(n);
            n == b[0] as int * 0x100_0000 + b[1] as int * 0x1_0000 + b[2] as int * 0x100 + b[3] as int
  {
    assert n / 0x1_0000 == n / 0x100_0000 * 0x100 + n / 0x1_0000 % 0x100;
    assert n / 0x100 == n / 0x1_0000 * 0x100 + n / 0x100 % 0x100;
  }

  /** Every 32-bit length survives the header. */
  lemma LengthRoundTrip(n: int)
    requires 0 <= n < TWO_TO_THE_32
    ensures FromBigEndian(BigEndian(n)) == n
  {
    MostSignificantFirst(n);
  }

  /** Every four bytes are the header of some length, so the two directions are inverse bijections. */
  lemma HeaderRoundTrip(b: seq<Byte>)
    requires |b| == HEADER_LENGTH
    ensures BigEndian(FromBigEndian(b)) == b
  {
    var b0: int, b1: int, b2: int, b3: int := b[0], b[1], b[2], b[3];
    var hi := b0 * 0x100 + b1;
    var mid := hi * 0x100 + b2;
    var n := FromBigEndian(b);
    assert n / 0x100 == mid && n % 0x100 == b3;
    assert mid / 0x100 == hi && mid % 0x100 == b2;
    assert hi / 0x100 == b0 && hi % 0x100 == b1;
    assert n / 0x1_0000 == hi;
    assert n / 0x100_0000 == b0;
  }

  /** What one send puts on the wire; the length is narrowed to 32 bits, whatever the body. */
  function Frame(body: seq<Byte>): (f: seq<Byte>)
    ensures |f| == HEADER_LENGTH + |body|
  {
    BigEndian(|body| % TWO_TO_THE_32) + body
  }

  function Concat(chunks: seq<seq<Byte>>): seq<Byte> {
    if chunks == [] then [] else chunks[0] + Concat(chunks[1..])
  }

  /** The frames of several bodies back to back. */
  function Frames(bodies: seq<seq<Byte>>): seq<Byte> {
    if bodies == [] then [] else Frame(bodies[0]) + Frames(bodies[1..])
  }

  /** The only body lengths a reader accepts. */
  predicate Acceptable(n: int) {
    0 < n < MAX_BODY_LENGTH
  }

  predicate AllAcceptable(bodies: seq<seq<Byte>>) {
    forall i :: 0 <= i < |bodies| ==> Acceptable(|bodies[i]|)
  }

  /** A codec for envelopes; the format of a body is not part of this model. */
  datatype Codec<!E(!new)> = Codec(serialize: E -> seq<Byte>, parse: seq<Byte> -> Option<E>) {
    /** Parsing undoes serializing, and a serialized envelope's length fits the header. */
    ghost predicate Faithful() {
      forall e :: parse(serialize(e)) == Some(e) && |serialize(e)| < TWO_TO_THE_32
    }

    function Bodies(es: seq<E>): (bodies: seq<seq<Byte>>)
      ensures |bodies| == |es|
      ensures forall i :: 0 <= i < |es| ==> bodies[i] == serialize(es[i])
    {
      if es == [] then [] else [serialize(es[0])] + Bodies(es[1..])
    }
  }

  /** Where the decoding of a byte string ends. */
  datatype End =
    | Partial(rest: seq<Byte>)      // the last frame is incomplete
    | BadLength(length: int)        // a header outside the accepted lengths
    | BadBody(body: seq<Byte>)      // a body that does not parse

  datatype Decoding<+E> = Decoding(messages: seq<E>, end: End)

  /** The reference decoder: all messages of a whole byte string, and where decoding ends. */
  function Decode<E(!new)>(codec: Codec<E>, s: seq<Byte>): Decoding<E>
    decreases |s|
  {
    if |s| < HEADER_LENGTH then Decoding([], Partial(s)) else
    var n := FromBigEndian(s[..HEADER_LENGTH]);
    if !Acceptable(n) then Decoding([], BadLength(n)) else
    if |s| < HEADER_LENGTH + n then Decoding([], Partial(s)) else
    var body := s[HEADER_LENGTH..HEADER_LENGTH + n];
    match codec.parse(body)
    case None => Decoding([], BadBody(body))
    case Some(e) => Behind(e, Decode(codec, s[HEADER_LENGTH + n..]))
  }

  /** A decoding with one more message in front. */
  function Behind<E>(e: E, d: Decoding<E>): Decoding<E> {
    Decoding([e] + d.messages, d.end)
  }

  lemma SliceBehind(header: seq<Byte>, more: seq<Byte>, n: nat)
    requires n <= |more|
    ensures var s, h := header + more, |header|;
            s[..h] == header && s[h..h + n] == more[..n] && s[h + n..] == more[n..]
  {
  }

  lemma ThreeSlices(header: seq<Byte>, body: seq<Byte>, rest: seq<Byte>, s: seq<Byte>)
    requires s == header + body + rest
    ensures var h, n := |header|, |body|;
            s[..h] == header && s[h..h + n] == body && s[h + n..] == rest
  {
  }

  /** The frame at the head of a byte string is the first thing decoding sees. */
  lemma FrameAtHead(body: seq<Byte>, rest: seq<Byte>)
    requires |body| < TWO_TO_THE_32
    ensures var s := Frame(body) + rest;
            && FromBigEndian(s[..HEADER_LENGTH]) == |body|
            && s[HEADER_LENGTH..HEADER_LENGTH + |body|] == body
            && s[HEADER_LENGTH + |body|..] == rest
  {
    LengthRoundTrip(|body|);
    ThreeSlices(BigEndian(|body|), body, rest, Frame(body) + rest);
  }

  /** One acceptable frame decodes to its message, and decoding goes on behind it. */
  lemma DecodeFrame<E(!new)>(codec: Codec<E>, e: E, rest: seq<Byte>)
    requires codec.Faithful() && Acceptable(|codec.serialize(e)|)
    ensures Decode(codec, Frame(codec.serialize(e)) + rest) == Behind(e, Decode(codec, rest))
  {
    FrameAtHead(codec.serialize(e), rest);
  }

  /** A body that does not parse ends the decoding, whatever is behind it. */
  lemma DecodeUnparsable<E(!new)>(codec: Codec<E>, body: seq<Byte>, rest: seq<Byte>)
    requires 0 < |body| < 8192 && codec.parse(body).None?
    ensures Decode(codec, Frame(body) + rest) == Decoding([], BadBody(body))
  {
    FrameAtHead(body, rest);
  }

  /** The first frame splits off. */
  lemma FramesHead<E(!new)>(codec: Codec<E>, es: seq<E>)
    requires es != []
    ensures Frames(codec.Bodies(es)) == Frame(codec.serialize(es[0])) + Frames(codec.Bodies(es[1..]))
  {
    assert codec.Bodies(es)[1..] == codec.Bodies(es[1..]);
  }

  /** How many of the messages have their whole frame within the first n bytes, up to the first unacceptable one. */
  function Arrived<E(!new)>(codec: Codec<E>, es: seq<E>, n: nat): (k: nat)
    ensures k <= |es|
  {
    if es == [] then 0 else
    var size := |codec.serialize(es[0])|;
    if Acceptable(size) && HEADER_LENGTH + size <= n
    then 1 + Arrived(codec, es[1..], n - HEADER_LENGTH - size)
    else 0
  }

  /** Where the k-th frame starts. */
  function Offset<E(!new)>(codec: Codec<E>, es: seq<E>, k: nat): nat
    requires k <= |es|
  {
    if k == 0 then 0 else HEADER_LENGTH + |codec.serialize(es[0])| + Offset(codec, es[1..], k - 1)
  }

  /** The header of the first unacceptable message is within the first n bytes. */
  ghost predicate BadHeaderArrived<E(!new)>(codec: Codec<E>, es: seq<E>, n: nat) {
    var k := Arrived(codec, es, n);
    k < |es| && !Acceptable(|codec.serialize(es[k])|) && Offset(codec, es, k) + HEADER_LENGTH <= n
  }

  /** What the decoded prefix of a stream of frames has to be. */
  ghost predicate CutDecodes<E(!new)>(codec: Codec<E>, es: seq<E>, n: nat, d: Decoding<E>) {
    && d.messages == es[..Arrived(codec, es, n)]
    && !d.end.BadBody?
    && (d.end.BadLength? <==> BadHeaderArrived(codec, es, n))
  }

  /**
   Cutting a stream of frames anywhere decodes to exactly the messages whose whole frame is before the
   cut, up to the first unacceptable length; decoding stops there if and only if that header has arrived.
   */
  lemma {:induction false} DecodeCut<E(!new)>(codec: Codec<E>, es: seq<E>, n: nat)
    requires codec.Faithful() && n <= |Frames(codec.Bodies(es))|
    ensures CutDecodes(codec, es, n, Decode(codec, Frames(codec.Bodies(es))[..n]))
    decreases |es|
  {
    if es == [] {
      NothingToDecode(codec, n);
    } else {
      var stream, more := Frames(codec.Bodies(es)), Frames(codec.Bodies(es[1..]));
      FramesHead(codec, es);
      if n < HEADER_LENGTH + |codec.serialize(es[0])| || !Acceptable(|codec.serialize(es[0])|) {
        DecodeCutInFirst(codec, es, n, stream, more);
      } else {
        var m := n - HEADER_LENGTH - |codec.serialize(es[0])|;
        DecodeCut(codec, es[1..], m);
        DecodeCutNext(codec, es, m, stream, more, Decode(codec, more[..m]));
      }
    }
  }

  lemma NothingToDecode<E(!new)>(codec: Codec<E>, n: nat)
    requires n <= |Frames(codec.Bodies([]))|
    ensures CutDecodes(codec, [], n, Decode(codec, Frames(codec.Bodies([]))[..n]))
  {
  }

  lemma DecodeCutNext<E(!new)>(codec: Codec<E>, es: seq<E>, m: nat, stream: seq<Byte>, more: seq<Byte>, d: Decoding<E>)
    requires codec.Faithful() && es != [] && stream == Frame(codec.serialize(es[0])) + more
    requires Acceptable(|codec.serialize(es[0])|) && m <= |more|
    requires d == Decode(codec, more[..m]) && CutDecodes(codec, es[1..], m, d)
    ensures var n := HEADER_LENGTH + |codec.serialize(es[0])| + m;
            CutDecodes(codec, es, n, Decode(codec, stream[..n]))
  {
    var n := HEADER_LENGTH + |codec.serialize(es[0])| + m;
    DecodeCutBehind(codec, es[0], more, m, stream);
    CutDecodesBehind(codec, es, n, d, Decode(codec, stream[..n]));
  }

  lemma DecodeCutInFirst<E(!new)>(codec: Codec<E>, es: seq<E>, n: nat, stream: seq<Byte>, more: seq<Byte>)
    requires codec.Faithful() && es != [] && stream == Frame(codec.serialize(es[0])) + more && n <= |stream|
    requires n < HEADER_LENGTH + |codec.serialize(es[0])| || !Acceptable(|codec.serialize(es[0])|)
    ensures CutDecodes(codec, es, n, Decode(codec, stream[..n]))
  {
    CutInFrame(codec, codec.serialize(es[0]), more, n);
  }

  /** With the first frame before the cut, decoding goes on behind it. */
  lemma DecodeCutBehind<E(!new)>(codec: Codec<E>, e: E, more: seq<Byte>, m: nat, stream: seq<Byte>)
    requires codec.Faithful() && Acceptable(|codec.serialize(e)|) && m <= |more|
    requires stream == Frame(codec.serialize(e)) + more
    ensures Decode(codec, stream[..HEADER_LENGTH + |codec.serialize(e)| + m]) == Behind(e, Decode(codec, more[..m]))
  {
    CutBehind(Frame(codec.serialize(e)), more, m);
    DecodeFrame(codec, e, more[..m]);
  }

  lemma CutDecodesBehind<E(!new)>(codec: Codec<E>, es: seq<E>, n: nat, d: Decoding<E>, all: Decoding<E>)
    requires es != [] && Acceptable(|codec.serialize(es[0])|) && HEADER_LENGTH + |codec.serialize(es[0])| <= n
    requires CutDecodes(codec, es[1..], n - HEADER_LENGTH - |codec.serialize(es[0])|, d) && all == Behind(es[0], d)
    ensures CutDecodes(codec, es, n, all)
  {
    ArrivedBehind(codec, es, n);
  }

  lemma CutBehind(front: seq<Byte>, more: seq<Byte>, m: nat)
    requires m <= |more|
    ensures (front + more)[..|front| + m] == front + more[..m]
  {
  }

  /** Behind a frame that has arrived, the rest counts as if it came first. */
  lemma ArrivedBehind<E(!new)>(codec: Codec<E>, es: seq<E>, n: nat)
    requires es != [] && Acceptable(|codec.serialize(es[0])|) && HEADER_LENGTH + |codec.serialize(es[0])| <= n
    ensures var m := n - HEADER_LENGTH - |codec.serialize(es[0])|;
            && [es[0]] + es[1..][..Arrived(codec, es[1..], m)] == es[..Arrived(codec, es, n)]
            && (BadHeaderArrived(codec, es[1..], m) <==> BadHeaderArrived(codec, es, n))
  {
  }

  /** A cut inside the first frame, or an unacceptable first frame, yields no message. */
  lemma CutInFrame<E(!new)>(codec: Codec<E>, body: seq<Byte>, more: seq<Byte>, n: nat)
    requires |body| < TWO_TO_THE_32 && n <= |Frame(body) + more|
    requires n < HEADER_LENGTH + |body| || !Acceptable(|body|)
    ensures var d := Decode(codec, (Frame(body) + more)[..n]);
            && d.messages == [] && !d.end.BadBody?
            && (d.end.BadLength? <==> HEADER_LENGTH <= n && !Acceptable(|body|))
  {
    if HEADER_LENGTH <= n {
      FrameAtHead(body, more);
      assert (Frame(body) + more)[..n][..HEADER_LENGTH] == (Frame(body) + more)[..HEADER_LENGTH];
    }
  }

  /** Two lists of acceptable bodies with the same byte stream are the same list. */
  lemma FramesInjective(a: seq<seq<Byte>>, b: seq<seq<Byte>>)
    requires AllAcceptable(a) && AllAcceptable(b)
    requires Frames(a) == Frames(b)
    ensures a == b
  {
    FramesPrefixFree(a, b, []);
    assert Frames(a) + [] == Frames(a);
  }

  /** If a stream of acceptable frames extends another, the shorter list is a prefix of the longer. */
  lemma {:induction false} FramesPrefixFree(a: seq<seq<Byte>>, b: seq<seq<Byte>>, rest: seq<Byte>)
    requires AllAcceptable(a) && AllAcceptable(b)
    requires Frames(a) + rest == Frames(b)
    ensures a <= b && rest == Frames(b[|a|..])
    decreases |a|
  {
    if a == [] {
      assert Frames(a) + rest == rest;
    } else {
      var fa, ta := a[0], Frames(a[1..]) + rest;
      assert Frames(a) + rest == Frame(fa) + ta;
      FrameAtHead(fa, ta);
      if b != [] {
        FrameAtHead(b[0], Frames(b[1..]));
        FramesPrefixFree(a[1..], b[1..], rest);
        assert b[1..][|a| - 1..] == b[|a|..];
      }
    }
  }

  /** No frame is a proper prefix of another. */
  lemma FramePrefixFree(a: seq<Byte>, b: seq<Byte>)
    requires |a| < TWO_TO_THE_32 && |b| < TWO_TO_THE_32
    requires Frame(a) <= Frame(b)
    ensures a == b
  {
    FrameAtHead(a, Frame(b)[|Frame(a)|..]);
    FrameAtHead(b, []);
    assert Frame(a) + Frame(b)[|Frame(a)|..] == Frame(b) + [];
  }
}
