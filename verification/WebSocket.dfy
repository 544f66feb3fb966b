/** WebSocket framing: src/advanced/websocket_transport.cpp, lines 450-590, over a byte-sequence connection. */
module WebSocket {
  import opened Machine
  import Limbs

  // ------------------------------------------------------------ big-endian numbers

  function Pow256(i: nat): (p: nat)
    ensures p > 0
  {
    if i == 0 then 1 else 256 * Pow256(i - 1)
  }

  /** `n >> (8 * i)`, a byte at a time. */
  function Shifted(n: nat, i: nat): nat { if i == 0 then n else Shifted(n / 256, i - 1) }

  /** `(n >> (8 * i)) & 0xFF` */
  function ByteOf(n: nat, i: nat): byte { (Shifted(n, i) % 256) as byte }

  /** The low `count` bytes of n, the highest first. */
  function BigEndian(n: nat, count: nat): (s: seq<byte>)
    ensures |s| == count
  {
    if count == 0 then [] else BigEndian(n / 256, count - 1) + [(n % 256) as byte]
  }

  function FromBigEndian(s: seq<byte>): nat {
    if s == [] then 0 else FromBigEndian(s[..|s| - 1]) * 256 + s[|s| - 1] as int
  }

  lemma {:induction false} FromBigEndianRange(s: seq<byte>)
    ensures FromBigEndian(s) < Pow256(|s|)
  {
    if s != [] {
      FromBigEndianRange(s[..|s| - 1]);
    }
  }

  lemma FromBigEndianNext(front: seq<byte>, last: byte)
    ensures FromBigEndian(front + [last]) == FromBigEndian(front) * 256 + last as int
  {
    var s := front + [last];
    assert s[..|s| - 1] == front;
  }

  lemma {:induction false} BigEndianRoundTrip(n: nat, count: nat)
    requires n < Pow256(count)
    ensures FromBigEndian(BigEndian(n, count)) == n
  {
    if count > 0 {
      BigEndianRoundTrip(n / 256, count - 1);
      FromBigEndianNext(BigEndian(n / 256, count - 1), (n % 256) as byte);
      Limbs.ByteRound(n % 256);
      assert BigEndian(n, count) == BigEndian(n / 256, count - 1) + [(n % 256) as byte];
      hide FromBigEndian, BigEndian, Pow256;
    }
  }

  lemma {:induction false} ShiftAgain(n: nat, i: nat)
    ensures Shifted(n, i) / 256 == Shifted(n, i + 1)
  {
    if i > 0 {
      ShiftAgain(n / 256, i - 1);
    }
  }

  /** Pushing one more byte continues the big-endian form. */
  lemma BigEndianNext(n: nat, i: nat, count: nat)
    ensures BigEndian(Shifted(n, i), count + 1) == BigEndian(Shifted(n, i + 1), count) + [ByteOf(n, i)]
  {
    ShiftAgain(n, i);
    hide Shifted;
  }

  // ------------------------------------------------------------ frames

  const BINARY: byte := 0x2
  const CLOSE: byte := 0x8
  const PING: byte := 0x9
  const PONG: byte := 0xA

  datatype Frame = Frame(fin: bool, opcode: byte, payload: seq<byte>)

  /** Byte k of the masking key as it is sent. */
  function Key(mask: uint32): (key: seq<byte>)
    ensures |key| == 4
  {
    [ByteOf(mask, 3), ByteOf(mask, 2), ByteOf(mask, 1), ByteOf(mask, 0)]
  }

  function Masked(payload: seq<byte>, key: seq<byte>): (s: seq<byte>)
    requires |key| == 4
    ensures |s| == |payload|
  {
    seq(|payload|, i requires 0 <= i < |payload| => payload[i] ^ key[i % 4])
  }

  lemma MaskedTwice(payload: seq<byte>, key: seq<byte>)
    requires |key| == 4
    ensures Masked(Masked(payload, key), key) == payload
  {
    forall i | 0 <= i < |payload|
      ensures Masked(Masked(payload, key), key)[i] == payload[i]
    {
      XorTwice(payload[i], key[i % 4]);
    }
  }

  /** The second header byte and the extended length, section 5.2 of RFC 6455. */
  function LengthBytes(flag: byte, len: nat): seq<byte>
    requires len < TWO_64
  {
    if len < 126 then [flag | (len as byte)]
    else if len < 65536 then [flag | 126] + BigEndian(len, 2)
    else [flag | 127] + BigEndian(len, 8)
  }

  predicate Encodable(f: Frame) { f.opcode < 16 && |f.payload| < TWO_64 }

  function Assembled(first: byte, flag: byte, key: seq<byte>, body: seq<byte>): seq<byte>
    requires |body| < TWO_64
  {
    [first] + LengthBytes(flag, |body|) + key + body
  }

  function FirstByte(f: Frame): byte { if f.fin then 0x80 | f.opcode else f.opcode }

  /** A frame on the wire, section 5.2 of RFC 6455, masked or not. */
  function Wire(f: Frame, mask: Option<uint32>): seq<byte>
    requires Encodable(f)
  {
    match mask
    case None => Assembled(FirstByte(f), 0, [], f.payload)
    case Some(m) => Assembled(FirstByte(f), 0x80, Key(m), Masked(f.payload, Key(m)))
  }

  datatype Parsed = Parsed(frame: Frame, rest: seq<byte>)

  /** Bit 7 of a header byte: FIN in the first, MASK in the second. */
  predicate TopBit(x: byte) { x & 0x80 != 0 }

  function Opcode(x: byte): (op: byte)
    ensures op < 16
  {
    x & 0x0F
  }

  function LengthField(x: byte): nat { (x & 0x7F) as int }

  /** The payload length announced after the first two bytes, and how many bytes announce it. */
  function Announced(s: seq<byte>): (r: Option<(nat, nat)>)
    requires |s| >= 2
    ensures r.Some? ==> r.value.0 < TWO_64 && 2 <= r.value.1 <= |s|
  {
    var len := LengthField(s[1]);
    if len == 126 then
      if |s| < 4 then None else ShortLength(s[2..4]); Some((FromBigEndian(s[2..4]), 4))
    else if len == 127 then
      if |s| < 10 then None else ShortLength(s[2..10]); Some((FromBigEndian(s[2..10]), 10))
    else Some((len, 2))
  }

  lemma ShortLength(s: seq<byte>)
    requires |s| == 2 || |s| == 8
    ensures FromBigEndian(s) < TWO_64
  {
    FromBigEndianRange(s);
    Pow256Values();
  }

  lemma Pow256Values()
    ensures Pow256(2) == 65536 && Pow256(8) == TWO_64
  {
    assert Pow256(4) == 0x1_0000_0000;
  }

  function Parse(s: seq<byte>): (r: Option<Parsed>)
    ensures r.Some? ==> |r.value.rest| < |s| && r.value.frame.opcode < 16 && |r.value.frame.payload| < TWO_64
  {
    if |s| < 2 then None
    else
      match Announced(s)
      case None => None
      case Some((len, at)) =>
        var body := if TopBit(s[1]) then at + 4 else at;
        if |s| < body + len then None
        else
          var payload := s[body..body + len];
          Some(Parsed(
            Frame(TopBit(s[0]), Opcode(s[0]), if body == at then payload else Masked(payload, s[at..body])),
            s[body + len..]))
  }

  lemma FirstByteParts(f: Frame)
    requires Encodable(f)
    ensures TopBit(FirstByte(f)) == f.fin && Opcode(FirstByte(f)) == f.opcode
  {
    var x := f.opcode;
    assert (0x80 | x) & 0x80 != 0 && (0x80 | x) & 0x0F == x;
    assert x & 0x80 == 0 && x & 0x0F == x;
  }

  lemma SecondByte(flag: byte, len: nat)
    requires len < 128 && (flag == 0 || flag == 0x80)
    ensures LengthField(flag | (len as byte)) == len && TopBit(flag | (len as byte)) == (flag == 0x80)
  {
    Limbs.ByteRound(len);
    LowBits(len as byte);
    assert flag | (len as byte) == 0x80 | (len as byte) || flag | (len as byte) == 0 | (len as byte);
  }

  lemma LowBits(x: byte)
    requires x < 128
    ensures (0 | x) & 0x7F == x && (0x80 | x) & 0x7F == x && (0 | x) & 0x80 == 0 && (0x80 | x) & 0x80 == 0x80
  {
  }

  /** The length bytes announce the length, and carry the MASK bit. */
  lemma AnnouncedLength(first: byte, flag: byte, len: nat, tail: seq<byte>)
    requires len < TWO_64 && (flag == 0 || flag == 0x80)
    ensures
      var bytes := LengthBytes(flag, len);
      var s := [first] + bytes + tail;
      && |s| >= 2 && Announced(s) == Some((len, 1 + |bytes|)) && TopBit(s[1]) == (flag == 0x80)
  {
    hide BigEndian, FromBigEndian, Pow256, LengthField, TopBit;
    var s := [first] + LengthBytes(flag, len) + tail;
    Pow256Values();
    SecondByte(flag, if len < 126 then len else if len < 65536 then 126 else 127);
    if len < 126 {
      assert Announced(s) == Some((len, 2));
    } else if len < 65536 {
      assert s[2..4] == BigEndian(len, 2);
      BigEndianRoundTrip(len, 2);
    } else {
      assert s[2..10] == BigEndian(len, 8);
      BigEndianRoundTrip(len, 8);
    }
  }

  lemma ParseAt(s: seq<byte>, len: nat, at: nat, body: nat)
    requires |s| >= 2 && Announced(s) == Some((len, at))
    requires body == (if TopBit(s[1]) then at + 4 else at) && body + len <= |s|
    ensures Parse(s) == Some(Parsed(
      Frame(TopBit(s[0]), Opcode(s[0]),
            if TopBit(s[1]) then Masked(s[body..body + len], s[at..body]) else s[body..body + len]),
      s[body + len..]))
  {
    hide Announced, TopBit, Opcode, Masked;
  }

  lemma ParseFails(s: seq<byte>)
    requires |s| < 2 || Announced(s) == None
      || |s| < Announced(s).value.1 + (if TopBit(s[1]) then 4 else 0) + Announced(s).value.0
    ensures Parse(s) == None
  {
  }

  /** What Parse makes of a header, a masking key and a payload. */
  lemma ParseParts(first: byte, flag: byte, key: seq<byte>, body: seq<byte>, rest: seq<byte>)
    requires |body| < TWO_64
    requires if flag == 0 then |key| == 0 else flag == 0x80 && |key| == 4
    ensures Parse(Assembled(first, flag, key, body) + rest) ==
      Some(Parsed(Frame(TopBit(first), Opcode(first), if flag == 0 then body else Masked(body, key)), rest))
  {
    hide *;
    var head := [first] + LengthBytes(flag, |body|);
    var s := Assembled(first, flag, key, body) + rest;
    AssembledParts(first, flag, key, body, rest);
    AnnouncedLength(first, flag, |body|, key + body + rest);
    Slices(head, key, body, rest);
    ParseAt(s, |body|, |head|, |head| + |key|);
  }

  lemma AssembledParts(first: byte, flag: byte, key: seq<byte>, body: seq<byte>, rest: seq<byte>)
    requires |body| < TWO_64
    ensures
      var head := [first] + LengthBytes(flag, |body|);
      var s := Assembled(first, flag, key, body) + rest;
      s == head + (key + body + rest) && s == head + key + body + rest
  {
    hide LengthBytes;
  }

  lemma Slices(head: seq<byte>, key: seq<byte>, body: seq<byte>, rest: seq<byte>)
    ensures
      var s := head + key + body + rest;
      var at := |head|;
      var start := at + |key|;
      && |s| == start + |body| + |rest|
      && s[at..start] == key && s[start..start + |body|] == body && s[start + |body|..] == rest
      && (head != [] ==> s[0] == head[0])
  {
  }

  /** Reading what was written gives the frame back and consumes exactly its bytes. */
  lemma RoundTrip(f: Frame, mask: Option<uint32>, rest: seq<byte>)
    requires Encodable(f)
    ensures Parse(Wire(f, mask) + rest) == Some(Parsed(f, rest))
  {
    FirstByteParts(f);
    match mask
    case None =>
      ParseParts(FirstByte(f), 0, [], f.payload, rest);
    case Some(m) =>
      ParseParts(FirstByte(f), 0x80, Key(m), Masked(f.payload, Key(m)), rest);
      MaskedTwice(f.payload, Key(m));
      hide Masked, Parse, Assembled, Opcode, TopBit, FirstByte, Key;
  }

  // ------------------------------------------------------------ streams of frames

  /** A frame and the mask it is sent with. */
  datatype Sent = Sent(frame: Frame, mask: Option<uint32>)

  predicate AllEncodable(fs: seq<Sent>) { forall x :: x in fs ==> Encodable(x.frame) }

  function WireAll(fs: seq<Sent>): seq<byte>
    requires AllEncodable(fs)
  {
    if fs == [] then [] else Wire(fs[0].frame, fs[0].mask) + WireAll(fs[1..])
  }

  function Frames(fs: seq<Sent>): seq<Frame> {
    if fs == [] then [] else [fs[0].frame] + Frames(fs[1..])
  }

  /** Every frame of a stream, if the stream ends with a frame. */
  function ParseAll(s: seq<byte>): Option<seq<Frame>>
    decreases |s|
  {
    if s == [] then Some([])
    else
      match Parse(s)
      case None => None
      case Some(p) =>
        match ParseAll(p.rest)
        case None => None
        case Some(fs) => Some([p.frame] + fs)
  }

  lemma FirstOfMany(fs: seq<Sent>, rest: seq<byte>)
    requires AllEncodable(fs) && fs != []
    ensures Encodable(fs[0].frame) && AllEncodable(fs[1..])
    ensures Parse(WireAll(fs) + rest) == Some(Parsed(fs[0].frame, WireAll(fs[1..]) + rest))
    ensures |WireAll(fs[1..])| < |WireAll(fs)|
  {
    assert fs[0] in fs;
    var first := Wire(fs[0].frame, fs[0].mask);
    assert WireAll(fs) + rest == first + (WireAll(fs[1..]) + rest);
    RoundTrip(fs[0].frame, fs[0].mask, WireAll(fs[1..]) + rest);
    hide Parse, LengthBytes;
  }

  /** Frames sent one after another are read back in order, and nothing is left over. */
  lemma {:induction false} StreamRoundTrip(fs: seq<Sent>)
    requires AllEncodable(fs)
    ensures ParseAll(WireAll(fs)) == Some(Frames(fs))
    decreases |fs|
  {
    if fs != [] {
      FirstOfMany(fs, []);
      assert WireAll(fs) + [] == WireAll(fs) && WireAll(fs[1..]) + [] == WireAll(fs[1..]);
      StreamRoundTrip(fs[1..]);
      hide Parse, Wire;
    }
  }

  // ------------------------------------------------------------ reassembly

  /** What `recv` makes of a stream and of what its buffer holds. */
  datatype Received = Received(
    message: Option<seq<byte>>, rest: seq<byte>, buffer: seq<byte>, pings: seq<seq<byte>>, closed: bool)

  function Answering(ping: seq<byte>, r: Received): Received { r.(pings := [ping] + r.pings) }

  function Receive(input: seq<byte>, buffer: seq<byte>): Received
    decreases |input|
  {
    match Parse(input)
    case None => Received(None, [], buffer, [], false)
    case Some(p) =>
      if p.frame.opcode == CLOSE then Received(None, p.rest, [], [], true)
      else if p.frame.opcode == PING then Answering(p.frame.payload, Receive(p.rest, buffer))
      else if p.frame.fin then Received(Some(buffer + p.frame.payload), p.rest, [], [], false)
      else Receive(p.rest, buffer + p.frame.payload)
  }

  predicate IsData(f: Frame) { f.opcode != CLOSE && f.opcode != PING && f.opcode != PONG }

  /** The payloads of the data frames, and of the pings. */
  function Data(fs: seq<Sent>): seq<byte> {
    if fs == [] then [] else (if IsData(fs[0].frame) then fs[0].frame.payload else []) + Data(fs[1..])
  }

  function Pings(fs: seq<Sent>): seq<seq<byte>> {
    if fs == [] then []
    else (if fs[0].frame.opcode == PING then [fs[0].frame.payload] else []) + Pings(fs[1..])
  }

  /**
   * One message as section 5.4 of RFC 6455 has it: data fragments of which exactly the last has FIN,
   * with control frames in between, which cannot be fragmented.
   */
  predicate IsMessage(fs: seq<Sent>) {
    && fs != []
    && IsData(fs[|fs| - 1].frame) && fs[|fs| - 1].frame.fin
    && forall i :: 0 <= i < |fs| - 1 ==> fs[i].frame.fin != IsData(fs[i].frame) && fs[i].frame.opcode != CLOSE
  }

  predicate HasPong(fs: seq<Sent>) { exists i :: 0 <= i < |fs| && fs[i].frame.opcode == PONG }

  lemma RestOfMessage(fs: seq<Sent>)
    requires IsMessage(fs) && |fs| > 1
    ensures IsMessage(fs[1..])
    ensures HasPong(fs) <==> fs[0].frame.opcode == PONG || HasPong(fs[1..])
  {
    assert forall i :: 0 <= i < |fs| - 1 ==> fs[1..][i] == fs[i + 1];
    if HasPong(fs) && fs[0].frame.opcode != PONG {
      var i :| 0 <= i < |fs| && fs[i].frame.opcode == PONG;
      assert fs[1..][i - 1].frame.opcode == PONG;
    }
  }

  lemma ReceiveNext(input: seq<byte>, buffer: seq<byte>)
    ensures Receive(input, buffer) ==
      match Parse(input)
      case None => Received(None, [], buffer, [], false)
      case Some(p) =>
        if p.frame.opcode == CLOSE then Received(None, p.rest, [], [], true)
        else if p.frame.opcode == PING then Answering(p.frame.payload, Receive(p.rest, buffer))
        else if p.frame.fin then Received(Some(buffer + p.frame.payload), p.rest, [], [], false)
        else Receive(p.rest, buffer + p.frame.payload)
  {
  }

  lemma AnsweringSame(ping: seq<byte>, r: Received, q: Received)
    ensures Answering(ping, r) == Answering(ping, q) <==> r == q
  {
    if Answering(ping, r) == Answering(ping, q) {
      assert ([ping] + r.pings)[1..] == r.pings && ([ping] + q.pings)[1..] == q.pings;
    }
  }

  /** What receiving these frames should give. */
  function Expected(fs: seq<Sent>, rest: seq<byte>, buffer: seq<byte>): Received {
    Received(Some(buffer + Data(fs)), rest, [], Pings(fs), false)
  }

  lemma ExpectedNext(fs: seq<Sent>, rest: seq<byte>, buffer: seq<byte>)
    requires IsMessage(fs)
    ensures
      var f := fs[0].frame;
      Expected(fs, rest, buffer) ==
      if f.opcode == PING then Answering(f.payload, Expected(fs[1..], rest, buffer))
      else if f.opcode == PONG then Expected(fs[1..], rest, buffer)
      else if |fs| == 1 then Received(Some(buffer + f.payload), rest, [], [], false)
      else Expected(fs[1..], rest, buffer + f.payload)
  {
    var f := fs[0].frame;
    assert f.opcode != CLOSE by { assert |fs| > 1 ==> fs[0].frame.opcode != CLOSE; }
    assert [] + Data(fs[1..]) == Data(fs[1..]) && [] + Pings(fs[1..]) == Pings(fs[1..]);
    if IsData(f) {
      assert buffer + f.payload + Data(fs[1..]) == buffer + (f.payload + Data(fs[1..]));
    }
    if |fs| == 1 {
      assert Data(fs[1..]) == [] && Pings(fs[1..]) == [];
      assert buffer + (f.payload + []) == buffer + f.payload;
    }
  }

  /**
   * Receiving one message gives its data and consumes exactly its frames, answering every ping,
   * if and only if no PONG is among them: `recv` takes a PONG for the end of the message.
   */
  lemma {:induction false} ReceiveIsMessageIff(fs: seq<Sent>, rest: seq<byte>, buffer: seq<byte>)
    requires AllEncodable(fs) && IsMessage(fs)
    ensures Receive(WireAll(fs) + rest, buffer) == Expected(fs, rest, buffer) <==> !HasPong(fs)
    decreases |fs|
  {
    var f := fs[0].frame;
    var after := WireAll(fs[1..]) + rest;
    FirstOfMany(fs, rest);
    ExpectedNext(fs, rest, buffer);
    assert f.opcode != CLOSE && (f.opcode == PONG ==> f.fin && |fs| > 1) by { MessageHead(fs); }
    ReceiveNext(WireAll(fs) + rest, buffer);
    hide Receive, Parse, Wire, Expected, Answering, AllEncodable;
    if |fs| == 1 {
      assert WireAll(fs[1..]) == [] && after == rest;
    } else {
      RestOfMessage(fs);
      MessageHead(fs);
      hide IsMessage, HasPong, IsData, WireAll;
      if f.opcode == PING {
        ReceiveIsMessageIff(fs[1..], rest, buffer);
        AnsweringSame(f.payload, Receive(after, buffer), Expected(fs[1..], rest, buffer));
      } else if f.opcode == PONG {
        PongTooShort(fs, rest, buffer);
      } else {
        ReceiveIsMessageIff(fs[1..], rest, buffer + f.payload);
      }
    }
  }

  lemma MessageHead(fs: seq<Sent>)
    requires IsMessage(fs)
    ensures var f := fs[0].frame;
      && f.opcode != CLOSE && (f.opcode == PONG || f.opcode == PING ==> f.fin && |fs| > 1)
      && (|fs| > 1 && f.opcode != PONG && f.opcode != PING ==> !f.fin)
      && (|fs| == 1 ==> f.fin && IsData(f) && !HasPong(fs))
  {
    assert |fs| > 1 ==> fs[0].frame.fin != IsData(fs[0].frame);
  }

  /** Stopping at the PONG leaves frames of the message unread. */
  lemma PongTooShort(fs: seq<Sent>, rest: seq<byte>, buffer: seq<byte>)
    requires AllEncodable(fs) && |fs| > 1
    ensures Expected(fs, rest, buffer).rest != WireAll(fs[1..]) + rest
  {
    assert AllEncodable(fs[1..]) by { assert forall x :: x in fs[1..] ==> x in fs; }
    FirstOfMany(fs[1..], rest);
    assert |WireAll(fs[1..]) + rest| > |rest|;
  }

  // ------------------------------------------------------------ the client

  predicate Short(payloads: seq<seq<byte>>) { forall p :: p in payloads ==> |p| < TWO_64 }

  /** The PONG frames that answer these pings, masked with the random numbers from number k on. */
  function Pongs(random: nat -> uint32, k: nat, pings: seq<seq<byte>>): seq<byte>
    requires Short(pings)
    decreases |pings|
  {
    if pings == [] then []
    else
      var n := |pings| - 1;
      Pongs(random, k, pings[..n]) + Wire(Frame(true, PONG, pings[n]), Some(random(k + n)))
  }

  lemma PongsNext(random: nat -> uint32, k: nat, pings: seq<seq<byte>>, last: seq<byte>)
    requires Short(pings) && |last| < TWO_64
    ensures Short(pings + [last])
    ensures Pongs(random, k, pings + [last])
      == Pongs(random, k, pings) + Wire(Frame(true, PONG, last), Some(random(k + |pings|)))
  {
    hide Wire;
    assert (pings + [last])[..|pings|] == pings;
  }

  lemma TwoBytes(n: nat)
    ensures BigEndian(n, 2) == [ByteOf(n, 1), ByteOf(n, 0)]
  {
    assert Shifted(n, 0) == n;
    BigEndianNext(n, 0, 1);
    BigEndianNext(n, 1, 0);
    hide ByteOf, Shifted;
  }

  lemma MaskedNext(payload: seq<byte>, mask: uint32, i: nat)
    requires i < |payload|
    ensures Masked(payload, Key(mask))[..i + 1]
      == Masked(payload, Key(mask))[..i] + [payload[i] ^ ByteOf(mask, 3 - i % 4)]
  {
    hide ByteOf;
    assert Key(mask)[i % 4] == ByteOf(mask, 3 - i % 4);
  }

  lemma WireParts(opcode: byte, payload: seq<byte>, mask: uint32, frame: seq<byte>)
    requires opcode < 16 && |payload| < TWO_64
    requires frame == [0x80 | opcode] + LengthBytes(0x80, |payload|)
      + [ByteOf(mask, 3)] + [ByteOf(mask, 2)] + [ByteOf(mask, 1)] + [ByteOf(mask, 0)]
    ensures frame + Masked(payload, Key(mask))[..0] == frame
    ensures frame + Masked(payload, Key(mask))[..|payload|] == Wire(Frame(true, opcode, payload), Some(mask))
  {
    hide ByteOf, LengthBytes, Masked;
    assert frame == [0x80 | opcode] + LengthBytes(0x80, |payload|) + Key(mask);
    assert Masked(payload, Key(mask))[..|payload|] == Masked(payload, Key(mask));
  }

  lemma ShiftedByNothing(n: nat)
    ensures Shifted(n, 0) == n
  {
  }

  lemma EmptyBigEndian(n: nat)
    ensures forall i :: BigEndian(Shifted(n, i), 0) == []
  {
  }

  /** The length field of buildFrame: 7, 16 or 64 bits. */
  method PushLength(front: seq<byte>, len: nat) returns (frame: seq<byte>)
    requires len < TWO_64
    ensures frame == front + LengthBytes(0x80, len)
  {
    hide BigEndian, Shifted, ByteOf;
    if len < 126 {
      return front + [0x80 | (len as byte)];
    }
    if len < 65536 {
      frame := front + [0x80 | 126] + [ByteOf(len, 1)] + [ByteOf(len, 0)];
      TwoBytes(len);
      return;
    }
    frame := front + [0x80 | 127];
    EmptyBigEndian(len);
    ShiftedByNothing(len);
    var i := 8;
    while i > 0
      invariant 0 <= i <= 8
      invariant frame == front + [0x80 | 127] + BigEndian(Shifted(len, i), 8 - i)
    {
      i := i - 1;
      frame := frame + [ByteOf(len, i)];
      BigEndianNext(len, i, 7 - i);
    }
  }

  /** buildFrame: always FIN, always masked. */
  method BuildFrame(opcode: byte, payload: seq<byte>, mask: uint32) returns (frame: seq<byte>)
    requires opcode < 16 && |payload| < TWO_64
    ensures frame == Wire(Frame(true, opcode, payload), Some(mask))
  {
    hide *;
    frame := PushLength([0x80 | opcode], |payload|);
    frame := frame + [ByteOf(mask, 3)] + [ByteOf(mask, 2)] + [ByteOf(mask, 1)] + [ByteOf(mask, 0)];
    ghost var head := frame;
    WireParts(opcode, payload, mask, head);
    for i := 0 to |payload|
      invariant frame == head + Masked(payload, Key(mask))[..i]
    {
      MaskedNext(payload, mask, i);
      frame := frame + [payload[i] ^ ByteOf(mask, 3 - i % 4)];
    }
  }

  // The loop of `recv` has answered `pings` and goes on with the rest.

  function AnsweringAll(pings: seq<seq<byte>>, r: Received): Received { r.(pings := pings + r.pings) }

  lemma AnsweringNone(r: Received)
    ensures AnsweringAll([], r) == r
  {
    assert [] + r.pings == r.pings;
  }

  lemma AnsweringMore(pings: seq<seq<byte>>, ping: seq<byte>, r: Received)
    ensures AnsweringAll(pings, Answering(ping, r)) == AnsweringAll(pings + [ping], r)
  {
    assert pings + ([ping] + r.pings) == pings + [ping] + r.pings;
  }

  lemma AnsweringParts(pings: seq<seq<byte>>, r: Received)
    ensures
      var all := AnsweringAll(pings, r);
      && all.message == r.message && all.rest == r.rest && all.buffer == r.buffer && all.closed == r.closed
      && all.pings == pings + r.pings && (r.pings == [] ==> all.pings == pings)
  {
  }

  lemma PongOpcode()
    ensures PONG < 16
  {
  }

  lemma NoPongs(random: nat -> uint32, k: nat)
    ensures Short([]) && Pongs(random, k, []) == []
  {
  }

  class Client {
    /** The bytes that arrive before the connection times out or ends, and the bytes sent. */
    var input: seq<byte>
    var sent: seq<byte>
    var recvBuffer: seq<byte>
    var connected: bool
    /** The mask generator: number `drawn` comes next. */
    const random: nat -> uint32
    var drawn: nat

    constructor (input: seq<byte>, random: nat -> uint32)
      ensures this.input == input && this.random == random
      ensures sent == [] && recvBuffer == [] && connected && drawn == 0
    {
      this.input, this.random := input, random;
      sent, recvBuffer, connected, drawn := [], [], true, 0;
    }

    /** rawRecv: n bytes, or whatever there is and then failure. */
    method RawRecv(n: nat) returns (bytes: Option<seq<byte>>)
      modifies this`input
      ensures |old(input)| >= n ==> bytes == Some(old(input)[..n]) && input == old(input)[n..]
      ensures |old(input)| < n ==> bytes == None && input == []
    {
      if |input| < n {
        input := [];
        return None;
      }
      bytes := Some(input[..n]);
      input := input[n..];
    }

    method ReadLength(field: nat) returns (len: Option<nat>)
      requires field < 128
      modifies this`input
      ensures
        var bytes := if field == 126 then 2 else if field == 127 then 8 else 0;
        if |old(input)| < bytes then len == None && input == []
        else
          && input == old(input)[bytes..]
          && len == Some(if bytes == 0 then field else FromBigEndian(old(input)[..bytes]))
    {
      if field == 126 {
        var ext := RawRecv(2);
        if ext == None {
          return None;
        }
        FromBigEndianPair(ext.value);
        return Some(256 * ext.value[0] as int + ext.value[1] as int);
      }
      if field == 127 {
        var ext := RawRecv(8);
        if ext == None {
          return None;
        }
        var n: nat := 0;
        for i := 0 to 8
          invariant n == FromBigEndian(ext.value[..i]) && input == old(input)[8..]
        {
          assert ext.value[..i + 1] == ext.value[..i] + [ext.value[i]];
          FromBigEndianNext(ext.value[..i], ext.value[i]);
          n := n * 256 + ext.value[i] as int;
        }
        assert ext.value[..8] == ext.value;
        return Some(n);
      }
      return Some(field);
    }

    /** readFrame */
    method ReadFrame() returns (frame: Option<Frame>)
      modifies this`input
      ensures match Parse(old(input))
        case None => frame == None && input == []
        case Some(p) => frame == Some(p.frame) && input == p.rest
    {
      hide *;
      ghost var s := input;
      var hdr := RawRecv(2);
      if hdr == None {
        ParseFails(s);
        return None;
      }
      AnnouncedFrom(s);
      var masked := TopBit(hdr.value[1]);
      var len := ReadLength(LengthField(hdr.value[1]));
      if len == None {
        ParseFails(s);
        return None;
      }
      ghost var at := |s| - |input|;
      assert Announced(s) == Some((len.value, at));
      assert input == s[at..];
      var maskKey: seq<byte> := [0, 0, 0, 0];
      if masked {
        var key := RawRecv(4);
        if key == None {
          ParseFails(s);
          return None;
        }
        maskKey := key.value;
        CutTwice(s, at, 4);
      }
      ghost var body := |s| - |input|;
      assert input == s[body..];
      var bytes := RawRecv(len.value);
      if bytes == None {
        ParseFails(s);
        return None;
      }
      CutTwice(s, body, len.value);
      ParseAt(s, len.value, at, body);
      var payload := bytes.value;
      if masked {
        payload := Unmask(payload, maskKey);
      }
      return Some(Frame(TopBit(hdr.value[0]), Opcode(hdr.value[0]), payload));
    }

    /** disconnect: a CLOSE frame without payload, and an empty buffer. */
    method Disconnect()
      modifies this`sent, this`connected, this`recvBuffer
      ensures sent == if old(connected) then old(sent) + [0x88, 0x00] else old(sent)
      ensures !connected && recvBuffer == []
    {
      if connected {
        sent := sent + [0x88, 0x00];
      }
      connected := false;
      recvBuffer := [];
    }

    /** send: one masked BINARY frame. */
    method Send(data: seq<byte>) returns (ok: bool)
      requires |data| < TWO_64
      modifies this`sent, this`drawn
      ensures ok == connected && drawn == old(drawn) + if ok then 1 else 0
      ensures sent == old(sent) + if ok then Wire(Frame(true, BINARY, data), Some(random(old(drawn)))) else []
    {
      if !connected {
        return false;
      }
      var frame := BuildFrame(BINARY, data, random(drawn));
      drawn := drawn + 1;
      sent := sent + frame;
      return true;
    }

    /** recv */
    method Recv() returns (message: Option<seq<byte>>)
      modifies this
      ensures !old(connected) ==> message == None && !connected && input == old(input)
      ensures !old(connected) ==> sent == old(sent) && recvBuffer == old(recvBuffer) && drawn == old(drawn)
      ensures old(connected) ==>
        var r := Receive(old(input), old(recvBuffer));
        && message == r.message && input == r.rest && recvBuffer == r.buffer && connected == !r.closed
        && Short(r.pings) && drawn == old(drawn) + |r.pings|
        && sent == old(sent) + Pongs(random, old(drawn), r.pings) + if r.closed then [0x88, 0x00] else []
    {
      hide *;
      if !connected {
        return None;
      }
      ghost var input0, buffer0, sent0, drawn0 := input, recvBuffer, sent, drawn;
      ghost var pings: seq<seq<byte>> := [];
      NoPongs(random, drawn);
      PongOpcode();
      AnsweringNone(Receive(input, recvBuffer));
      while true
        invariant connected
        invariant Receive(input0, buffer0) == AnsweringAll(pings, Receive(input, recvBuffer))
        invariant Short(pings) && drawn == drawn0 + |pings|
        invariant sent == sent0 + Pongs(random, drawn0, pings)
        decreases |input|
      {
        ghost var in1, buf1 := input, recvBuffer;
        ReceiveNext(in1, buf1);
        AnsweringParts(pings, Receive(in1, buf1));
        var frame := ReadFrame();
        if frame == None {
          return None;
        }
        if frame.value.opcode == CLOSE {
          Disconnect();
          return None;
        }
        if frame.value.opcode == PING {
          var pong := BuildFrame(PONG, frame.value.payload, random(drawn));
          drawn := drawn + 1;
          sent := sent + pong;
          PongsNext(random, drawn0, pings, frame.value.payload);
          AnsweringMore(pings, frame.value.payload, Receive(input, recvBuffer));
          pings := pings + [frame.value.payload];
          continue;
        }
        recvBuffer := recvBuffer + frame.value.payload;
        if frame.value.fin {
          break;
        }
      }
      message := Some(recvBuffer);
      recvBuffer := [];
    }
  }

  /** The length as it is read: the field, then the bytes that follow the header. */
  lemma AnnouncedFrom(s: seq<byte>)
    requires |s| >= 2
    ensures
      var field, after := LengthField(s[1]), s[2..];
      var bytes := if field == 126 then 2 else if field == 127 then 8 else 0;
      && field < 128
      && Announced(s) == (if |after| < bytes then None
                          else Some((if bytes == 0 then field else FromBigEndian(after[..bytes]), 2 + bytes)))
  {
    var after := s[2..];
    assert |after| >= 2 ==> after[..2] == s[2..4];
    assert |after| >= 8 ==> after[..8] == s[2..10];
  }

  /** Cutting a stream in two steps. */
  lemma CutTwice(s: seq<byte>, a: nat, b: nat)
    requires a + b <= |s|
    ensures s[a..][..b] == s[a..a + b] && s[a..][b..] == s[a + b..]
  {
  }

  lemma FromBigEndianPair(s: seq<byte>)
    requires |s| == 2
    ensures FromBigEndian(s) == 256 * s[0] as int + s[1] as int
  {
    assert s == [] + [s[0]] + [s[1]];
    FromBigEndianNext([], s[0]);
    FromBigEndianNext([s[0]], s[1]);
  }

  /** The payload is unmasked in place. */
  method Unmask(bytes: seq<byte>, key: seq<byte>) returns (payload: seq<byte>)
    requires |key| == 4
    ensures payload == Masked(bytes, key)
  {
    var data := new byte[|bytes|](i requires 0 <= i < |bytes| => bytes[i]);
    for i := 0 to data.Length
      invariant forall j :: 0 <= j < i ==> data[j] == bytes[j] ^ key[j % 4]
      invariant forall j :: i <= j < data.Length ==> data[j] == bytes[j]
    {
      data[i] := data[i] ^ key[i % 4];
    }
    payload := data[..];
  }
}
