/**
 The incremental reader of client and server: a header read of four bytes, then a body read of the
 announced length, over and over, until a length or a body is refused.
 */
module FrameReader {
  import opened Wrappers
  import opened Framing

  datatype Phase = Header | Body(length: nat) | Stopped(why: End)

  /** The reader between two bytes: what it is reading, the bytes of it so far, the messages handled. */
  datatype Reader<+E> = Reader(phase: Phase, buffer: seq<Byte>, delivered: seq<E>)

  function Start<E>(delivered: seq<E>): Reader<E> {
    Reader(Header, [], delivered)
  }

  function Stop<E>(r: Reader<E>, why: End): Reader<E> {
    Reader(Stopped(why), [], r.delivered)
  }

  /** One more byte arrives. */
  function FeedByte<E(!new)>(codec: Codec<E>, r: Reader<E>, b: Byte): Reader<E> {
    var buffer := r.buffer + [b];
    match r.phase
    case Header =>
      if |buffer| != HEADER_LENGTH then r.(buffer := buffer) else
      var n := FromBigEndian(buffer);
      if Acceptable(n) then Reader(Body(n), [], r.delivered) else Stop(r, BadLength(n))
    case Body(n) =>
      if |buffer| != n then r.(buffer := buffer) else (
        match codec.parse(buffer)
        case Some(e) => Start(r.delivered + [e])
        case None => Stop(r, BadBody(buffer))
      )
    case Stopped(_) => r
  }

  function Feed<E(!new)>(codec: Codec<E>, r: Reader<E>, bytes: seq<Byte>): Reader<E>
    decreases |bytes|
  {
    if bytes == [] then r else Feed(codec, FeedByte(codec, r, bytes[0]), bytes[1..])
  }

  function FeedChunks<E(!new)>(codec: Codec<E>, r: Reader<E>, chunks: seq<seq<Byte>>): Reader<E>
    decreases |chunks|
  {
    if chunks == [] then r else FeedChunks(codec, Feed(codec, r, chunks[0]), chunks[1..])
  }

  /** Where a byte string is split does not matter, in any state of the reader. */
  lemma {:induction false} FeedSplit<E(!new)>(codec: Codec<E>, r: Reader<E>, a: seq<Byte>, b: seq<Byte>)
    ensures Feed(codec, Feed(codec, r, a), b) == Feed(codec, r, a + b)
    decreases |a|
  {
    if a == [] {
      assert a + b == b;
    } else {
      FeedSplit(codec, FeedByte(codec, r, a[0]), a[1..], b);
      assert (a + b)[1..] == a[1..] + b;
    }
  }

  lemma {:induction false} FeedChunking<E(!new)>(codec: Codec<E>, r: Reader<E>, chunks: seq<seq<Byte>>)
    ensures FeedChunks(codec, r, chunks) == Feed(codec, r, Concat(chunks))
    decreases |chunks|
  {
    if chunks != [] {
      FeedChunking(codec, Feed(codec, r, chunks[0]), chunks[1..]);
      FeedSplit(codec, r, chunks[0], Concat(chunks[1..]));
    }
  }

  function Needed(phase: Phase): nat
    requires !phase.Stopped?
  {
    if phase.Header? then HEADER_LENGTH else phase.length
  }

  /** Bytes that do not complete the current read are only stored. */
  lemma {:induction false} FeedIncomplete<E(!new)>(codec: Codec<E>, r: Reader<E>, bytes: seq<Byte>)
    requires !r.phase.Stopped? && |r.buffer + bytes| < Needed(r.phase)
    ensures Feed(codec, r, bytes) == r.(buffer := r.buffer + bytes)
    decreases |bytes|
  {
    if bytes == [] {
      assert r.buffer + bytes == r.buffer;
    } else {
      assert r.buffer + bytes == (r.buffer + [bytes[0]]) + bytes[1..];
      FeedIncomplete(codec, FeedByte(codec, r, bytes[0]), bytes[1..]);
    }
  }

  /** Bytes that exactly complete the current read act as its last byte does. */
  lemma FeedComplete<E(!new)>(codec: Codec<E>, r: Reader<E>, bytes: seq<Byte>)
    requires !r.phase.Stopped? && r.buffer == [] && 0 < |bytes| == Needed(r.phase)
    ensures var last := |bytes| - 1;
            Feed(codec, r, bytes) == FeedByte(codec, r.(buffer := bytes[..last]), bytes[last])
  {
    var last := |bytes| - 1;
    FeedIncomplete(codec, r, bytes[..last]);
    assert r.buffer + bytes[..last] == bytes[..last];
    FeedSplit(codec, r, bytes[..last], bytes[last..]);
    assert bytes[..last] + bytes[last..] == bytes;
  }

  lemma {:induction false} StoppedStays<E(!new)>(codec: Codec<E>, r: Reader<E>, bytes: seq<Byte>)
    requires r.phase.Stopped?
    ensures Feed(codec, r, bytes) == r
    decreases |bytes|
  {
    if bytes != [] {
      StoppedStays(codec, r, bytes[1..]);
    }
  }

  /** The reader that has handled a decoding and waits for the bytes that follow. */
  function AtEnd<E>(before: seq<E>, d: Decoding<E>): Reader<E> {
    var delivered := before + d.messages;
    match d.end
    case Partial(rest) =>
      if |rest| < HEADER_LENGTH then Reader(Header, rest, delivered)
      else Reader(Body(FromBigEndian(rest[..HEADER_LENGTH])), rest[HEADER_LENGTH..], delivered)
    case _ => Reader(Stopped(d.end), [], delivered)
  }

  /** The incremental reader refines the whole-stream decoder: messages, stop point and pending bytes. */
  lemma {:induction false} FeedIsDecode<E(!new)>(codec: Codec<E>, before: seq<E>, s: seq<Byte>)
    ensures Feed(codec, Start(before), s) == AtEnd(before, Decode(codec, s))
    decreases |s|
  {
    if |s| < HEADER_LENGTH {
      FeedIncomplete(codec, Start(before), s);
      assert [] + s == s && before + [] == before;
    } else {
      var header, more := s[..HEADER_LENGTH], s[HEADER_LENGTH..];
      assert header + more == s;
      var n := FromBigEndian(header);
      FeedHeader(codec, before, header, more);
      DecodeHeader(codec, header, more);
      if Acceptable(n) {
        FeedBody(codec, before, n, more);
        if n <= |more| && codec.parse(more[..n]).Some? {
          var e := codec.parse(more[..n]).value;
          FeedIsDecode(codec, before + [e], more[n..]);
          AtEndBehind(before, e, Decode(codec, more[n..]));
        } else {
          assert before + [] == before;
        }
      } else {
        assert before + [] == before;
      }
    }
  }

  /** What the decoder makes of a header and the bytes behind it. */
  lemma DecodeHeader<E(!new)>(codec: Codec<E>, header: seq<Byte>, more: seq<Byte>)
    requires |header| == HEADER_LENGTH
    ensures var n := FromBigEndian(header);
            Decode(codec, header + more) ==
              if !Acceptable(n) then Decoding([], BadLength(n)) else
              if |more| < n then Decoding([], Partial(header + more)) else
              match codec.parse(more[..n])
              case None => Decoding([], BadBody(more[..n]))
              case Some(e) => Behind(e, Decode(codec, more[n..]))
  {
    var n := FromBigEndian(header);
    SliceBehind(header, more, 0);
    if n <= |more| {
      SliceBehind(header, more, n);
    }
  }

  lemma AtEndBehind<E>(before: seq<E>, e: E, d: Decoding<E>)
    ensures AtEnd(before, Behind(e, d)) == AtEnd(before + [e], d)
  {
    assert before + ([e] + d.messages) == before + [e] + d.messages;
  }

  /** A whole header makes the reader wait for the body, or stop for good. */
  lemma FeedHeader<E(!new)>(codec: Codec<E>, before: seq<E>, header: seq<Byte>, more: seq<Byte>)
    requires |header| == HEADER_LENGTH
    ensures var n := FromBigEndian(header);
            Feed(codec, Start(before), header + more) ==
              if Acceptable(n) then Feed(codec, Reader(Body(n), [], before), more)
              else Reader(Stopped(BadLength(n)), [], before)
  {
    var n := FromBigEndian(header);
    FeedSplit(codec, Start(before), header, more);
    FeedComplete(codec, Start(before), header);
    assert header[..3] + [header[3]] == header;
    if !Acceptable(n) {
      StoppedStays(codec, Stop(Start(before), BadLength(n)), more);
    }
  }

  /** A header is refused for good exactly if it announces nothing or 8192 bytes and more. */
  lemma RefusedLengths<E(!new)>(codec: Codec<E>, before: seq<E>, header: seq<Byte>)
    requires |header| == HEADER_LENGTH
    ensures Feed(codec, Start(before), header).phase.Stopped? <==>
              FromBigEndian(header) == 0 || FromBigEndian(header) >= 8192
  {
    FeedHeader(codec, before, header, []);
    assert header + [] == header;
    assert Acceptable(FromBigEndian(header)) ==>
      Feed(codec, Reader(Body(FromBigEndian(header)), [], before), []).phase.Body?;
    assert !Acceptable(FromBigEndian(header)) ==> Feed(codec, Start(before), header).phase.Stopped?;
  }

  /** A whole body is one message, or stops the reader for good; less of it is kept. */
  lemma FeedBody<E(!new)>(codec: Codec<E>, before: seq<E>, n: nat, more: seq<Byte>)
    requires Acceptable(n)
    ensures Feed(codec, Reader(Body(n), [], before), more) ==
              if |more| < n then Reader(Body(n), more, before) else
              match codec.parse(more[..n])
              case Some(e) => Feed(codec, Start(before + [e]), more[n..])
              case None => Reader(Stopped(BadBody(more[..n])), [], before)
  {
    var r := Reader(Body(n), [], before);
    if |more| < n {
      FeedIncomplete(codec, r, more);
      assert [] + more == more;
    } else {
      var body, rest := more[..n], more[n..];
      assert body + rest == more;
      FeedSplit(codec, r, body, rest);
      FeedComplete(codec, r, body);
      assert body[..n - 1] + [body[n - 1]] == body;
      if codec.parse(body).None? {
        StoppedStays(codec, Stop(r, BadBody(body)), rest);
      }
    }
  }

  /** Any chunking of a byte string ends where the whole-stream decoder ends, with the same messages. */
  lemma ChunksAreDecoded<E(!new)>(codec: Codec<E>, chunks: seq<seq<Byte>>)
    ensures FeedChunks(codec, Start([]), chunks) == AtEnd([], Decode(codec, Concat(chunks)))
  {
    FeedChunking(codec, Start([]), chunks);
    FeedIsDecode(codec, [], Concat(chunks));
  }

  /** The reading half of a connection, with its two buffers. */
  class FrameReader<E(!new)> {
    const codec: Codec<E>
    const readHeader: array<Byte>
    var readBody: array<Byte>
    var phase: Phase
    var filled: nat          // bytes of the current read already in its buffer
    var delivered: seq<E>    // messages given to the message handler

    ghost predicate Valid()
      reads this, readHeader, readBody
    {
      && readHeader.Length == HEADER_LENGTH
      && readHeader != readBody
      && match phase
         case Header => filled < HEADER_LENGTH
         case Body(n) => filled < n == readBody.Length
         case Stopped(_) => true
    }

    ghost function State(): Reader<E>
      requires Valid()
      reads this, readHeader, readBody
    {
      match phase
      case Header => Reader(phase, readHeader[..filled], delivered)
      case Body(_) => Reader(phase, readBody[..filled], delivered)
      case Stopped(_) => Reader(phase, [], delivered)
    }

    constructor (codec: Codec<E>)
      ensures Valid() && this.codec == codec && State() == Start([])
      ensures fresh(readHeader) && fresh(readBody)
    {
      this.codec := codec;
      readHeader := new Byte[HEADER_LENGTH];
      readBody := new Byte[0];
      phase, filled, delivered := Header, 0, [];
    }

    method DoReadHeader()
      requires readHeader.Length == HEADER_LENGTH && readHeader != readBody
      modifies this
      ensures Valid() && State() == Start(delivered)
      ensures delivered == old(delivered) && readBody == old(readBody)
    {
      phase, filled := Header, 0;
    }

    method DoReadBody(bodyLength: nat)
      requires readHeader.Length == HEADER_LENGTH && Acceptable(bodyLength)
      modifies this
      ensures Valid() && State() == Reader(Body(bodyLength), [], delivered)
      ensures delivered == old(delivered) && fresh(readBody)
    {
      readBody := new Byte[bodyLength];
      phase, filled := Body(bodyLength), 0;
    }

    /** The header is complete: read the announced body, or stop. */
    method OnHeader()
      requires readHeader.Length == HEADER_LENGTH && readHeader != readBody
      modifies this
      ensures Valid() && (readBody == old(readBody) || fresh(readBody))
      ensures State() == var n := FromBigEndian(readHeader[..]);
                         Reader(if Acceptable(n) then Body(n) else Stopped(BadLength(n)), [], old(delivered))
    {
      var n := FromBigEndian(readHeader[..]);
      if Acceptable(n) {
        DoReadBody(n);
      } else {
        phase := Stopped(BadLength(n));
      }
    }

    /** The body is complete: hand its message on and read the next header, or stop. */
    method OnBody()
      requires readHeader.Length == HEADER_LENGTH && readHeader != readBody
      modifies this
      ensures Valid() && readBody == old(readBody)
      ensures State() == match codec.parse(readBody[..])
                         case Some(e) => Start(old(delivered) + [e])
                         case None => Reader(Stopped(BadBody(readBody[..])), [], old(delivered))
    {
      match codec.parse(readBody[..]) {
        case Some(e) =>
          delivered := delivered + [e];
          DoReadHeader();
        case None =>
          phase := Stopped(BadBody(readBody[..]));
      }
    }

    method OnByte(b: Byte)
      requires Valid()
      modifies this, readHeader, readBody
      ensures Valid() && (readBody == old(readBody) || fresh(readBody))
      ensures State() == FeedByte(codec, old(State()), b)
    {
      if phase.Header? {
        readHeader[filled] := b;
        filled := filled + 1;
        assert readHeader[..filled] == old(readHeader[..filled]) + [b];
        if filled == HEADER_LENGTH {
          assert readHeader[..] == readHeader[..filled];
          OnHeader();
        }
      } else if phase.Body? {
        readBody[filled] := b;
        filled := filled + 1;
        assert readBody[..filled] == old(readBody[..filled]) + [b];
        if filled == readBody.Length {
          assert readBody[..] == readBody[..filled];
          OnBody();
        }
      }
    }

    /** A chunk of bytes arrives from the socket. */
    method OnBytes(chunk: seq<Byte>)
      requires Valid()
      modifies this, readHeader, readBody
      ensures Valid() && (readBody == old(readBody) || fresh(readBody))
      ensures State() == Feed(codec, old(State()), chunk)
    {
      for i := 0 to |chunk|
        invariant Valid() && (readBody == old(readBody) || fresh(readBody))
        invariant State() == Feed(codec, old(State()), chunk[..i])
      {
        FeedSplit(codec, old(State()), chunk[..i], [chunk[i]]);
        assert chunk[..i] + [chunk[i]] == chunk[..i + 1];
        OnByte(chunk[i]);
      }
      assert chunk[..|chunk|] == chunk;
    }
  }
}
