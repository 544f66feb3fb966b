/** The packet layer of the secure channel, both cipher modes: src/advanced/secure_channel.cpp, lines 265-305,
    417-490 and 530-665.  Authentication is an assumption: a packet that passes is one the sender made. */
module SecureChannel {
  import opened Machine
  import Ctr
  import Gcm
  import Limbs
  import Pbkdf2
  import ReplayWindow
  import Sha256

  /** What both ends share: the session key, the block cipher under it, and the hash. */
  datatype Session = Session(key: seq<byte>, encrypt: Block -> Block, compression: Sha256.Compression)

  /** The tag field: an HMAC, or the random IV and the GCM tag. */
  datatype Auth = Mac(mac: seq<byte>) | Tagged(iv: seq<byte>, tag: seq<byte>)

  datatype Packet = Packet(sequence: uint64, length: uint32, auth: Auth, payload: seq<byte>)

  /** 64 MB; longer payloads are refused. */
  const MAX_PAYLOAD := 0x400_0000

  predicate WellFormed(p: Packet) {
    && |p.payload| == p.length
    && (match p.auth
       case Mac(mac) => |mac| == 32
       case Tagged(iv, tag) => |iv| == 12 && |tag| == 16)
  }

  /** version || sequence_number || payload_length, little-endian: the GCM header data and the start of the HMAC input. */
  function Header(sequence: uint64, length: uint32): seq<byte> {
    [1] + Limbs.Bytes(sequence, 8) + Limbs.Bytes(length, 4)
  }

  /** sha256(sessionKey || "aes_nonce_v1")[0..11] */
  function Nonce(s: Session): (n: seq<byte>)
    ensures |n| == 12
  {
    var suffix := [0x61, 0x65, 0x73, 0x5f, 0x6e, 0x6f, 0x6e, 0x63, 0x65, 0x5f, 0x76, 0x31];
    Sha256.Hash(s.compression, s.key + suffix)[..12]
  }

  function PacketMac(s: Session, sequence: uint64, length: uint32, payload: seq<byte>): (mac: seq<byte>)
    ensures |mac| == 32
  {
    Pbkdf2.Hmac(s.compression, s.key, Header(sequence, length) + payload)
  }

  /** p is what sending `data` as number `sequence` puts on the wire. */
  ghost predicate Made(s: Session, p: Packet, sequence: uint64, data: seq<byte>) {
    && p.sequence == sequence && p.length == |data| % 0x1_0000_0000
    && match p.auth
       case Mac(mac) =>
         && p.payload == Ctr.Crypt(s.encrypt, Nonce(s), sequence, data)
         && mac == PacketMac(s, sequence, p.length, p.payload)
       case Tagged(iv, tag) => |iv| == 12 && Gcm.Sealed(s.encrypt, iv, Header(sequence, p.length), data, p.payload, tag)
  }

  /** The checks of `recvSecure` before the replay window. */
  ghost predicate Passes(s: Session, p: Packet)
    requires WellFormed(p)
  {
    && p.length <= MAX_PAYLOAD
    && match p.auth
       case Mac(mac) => mac == PacketMac(s, p.sequence, p.length, p.payload)
       case Tagged(iv, tag) => Gcm.Sealed(s.encrypt, iv, Header(p.sequence, p.length), Opened(s, p), p.payload, tag)
  }

  /** The decrypted payload. */
  function Opened(s: Session, p: Packet): seq<byte>
    requires WellFormed(p)
  {
    match p.auth
    case Mac(_) => Ctr.Crypt(s.encrypt, Nonce(s), p.sequence, p.payload)
    case Tagged(iv, _) => Ctr.Crypt(s.encrypt, iv, 2, p.payload)
  }

  /** What was sent passes, and opens to what was sent. */
  lemma SentOpens(s: Session, p: Packet, sequence: uint64, data: seq<byte>)
    requires Made(s, p, sequence, data) && |data| <= MAX_PAYLOAD
    ensures WellFormed(p) && Passes(s, p) && Opened(s, p) == data
  {
    hide Ctr.Crypt, Nonce, PacketMac, Gcm.Tag, Header;
    match p.auth
    case Mac(mac) =>
      Ctr.CryptUndoesItself(s.encrypt, Nonce(s), sequence, data);
    case Tagged(iv, tag) =>
      Ctr.CryptUndoesItself(s.encrypt, iv, 2, data);
  }

  // ------------------------------------------------------------ runs

  predicate AllWellFormed(arrivals: seq<Packet>) { forall p :: p in arrivals ==> WellFormed(p) }

  /** The sequence numbers that reach the replay window. */
  ghost function Checked(s: Session, arrivals: seq<Packet>, n: nat): seq<int>
    requires AllWellFormed(arrivals) && n <= |arrivals|
  {
    if n == 0 then []
    else
      var front, p := Checked(s, arrivals, n - 1), arrivals[n - 1];
      if Passes(s, p) then front + [p.sequence as int] else front
  }

  /** What arrival j delivers. */
  ghost function Delivery(s: Session, arrivals: seq<Packet>, j: nat): Option<seq<byte>>
    requires AllWellFormed(arrivals) && j < |arrivals|
  {
    var p := arrivals[j];
    if Passes(s, p) && ReplayWindow.Acceptable(ReplayWindow.After(Checked(s, arrivals, j)), p.sequence)
    then Some(Opened(s, p)) else None
  }

  lemma {:induction false} CheckedPrefix(s: Session, arrivals: seq<Packet>, j: nat, n: nat)
    requires AllWellFormed(arrivals) && j < n <= |arrivals| && Passes(s, arrivals[j])
    ensures
      var k := |Checked(s, arrivals, j)|;
      var all := Checked(s, arrivals, n);
      k < |all| && all[..k] == Checked(s, arrivals, j) && all[k] == arrivals[j].sequence
    decreases n
  {
    hide Passes, Made, Opened, WellFormed;
    if j < n - 1 {
      CheckedPrefix(s, arrivals, j, n - 1);
    }
  }

  ghost predicate FromPassing(s: Session, arrivals: seq<Packet>, n: nat, sequence: int)
    requires AllWellFormed(arrivals) && n <= |arrivals|
  {
    exists j :: 0 <= j < n && Passes(s, arrivals[j]) && arrivals[j].sequence == sequence
  }

  lemma {:induction false} CheckedMembers(s: Session, arrivals: seq<Packet>, n: nat)
    requires AllWellFormed(arrivals) && n <= |arrivals|
    ensures forall v :: v in Checked(s, arrivals, n) ==> FromPassing(s, arrivals, n, v)
    decreases n
  {
    hide Passes, WellFormed;
    if n > 0 {
      CheckedMembers(s, arrivals, n - 1);
      forall v | v in Checked(s, arrivals, n)
        ensures FromPassing(s, arrivals, n, v)
      {
        if v in Checked(s, arrivals, n - 1) {
          var j :| 0 <= j < n - 1 && Passes(s, arrivals[j]) && arrivals[j].sequence == v;
          assert j < n;
        } else {
          assert Passes(s, arrivals[n - 1]) && arrivals[n - 1].sequence == v;
        }
      }
    }
  }

  /** The sender sends message i under number i, which has not wrapped around. */
  predicate Sendable(msgs: seq<seq<byte>>) {
    |msgs| <= TWO_64 && forall m :: m in msgs ==> |m| <= MAX_PAYLOAD
  }

  ghost predicate IsSent(s: Session, msgs: seq<seq<byte>>, p: Packet, i: nat) {
    i < |msgs| && i < TWO_64 && Made(s, p, i, msgs[i])
  }

  /** The network may lose, repeat, reorder and alter packets, but what passes the checks was sent. */
  ghost predicate Unforged(s: Session, msgs: seq<seq<byte>>, arrivals: seq<Packet>) {
    && AllWellFormed(arrivals)
    && forall j :: 0 <= j < |arrivals| && Passes(s, arrivals[j]) ==> exists i :: IsSent(s, msgs, arrivals[j], i)
  }

  lemma SentMessageOpens(s: Session, msgs: seq<seq<byte>>, p: Packet, i: nat)
    requires Sendable(msgs) && IsSent(s, msgs, p, i)
    ensures i < |msgs| && p.sequence == i && WellFormed(p) && Passes(s, p) && Opened(s, p) == msgs[i]
  {
    assert msgs[i] in msgs;
    SentOpens(s, p, i, msgs[i]);
    hide Passes, Opened;
  }

  lemma SentNumber(s: Session, msgs: seq<seq<byte>>, p: Packet, i: nat)
    requires IsSent(s, msgs, p, i)
    ensures p.sequence == i
  {
  }

  lemma DeliveryMeans(s: Session, arrivals: seq<Packet>, j: nat)
    requires AllWellFormed(arrivals) && j < |arrivals|
    ensures WellFormed(arrivals[j])
    ensures Delivery(s, arrivals, j) ==
      if Passes(s, arrivals[j])
         && ReplayWindow.Acceptable(ReplayWindow.After(Checked(s, arrivals, j)), arrivals[j].sequence)
      then Some(Opened(s, arrivals[j])) else None
  {
    hide Passes, Opened, Checked;
  }

  /** Whatever is delivered is a message that was sent, unchanged. */
  lemma DeliveredWasSent(s: Session, msgs: seq<seq<byte>>, arrivals: seq<Packet>, j: nat) returns (i: nat)
    requires Sendable(msgs) && Unforged(s, msgs, arrivals) && j < |arrivals|
    requires Delivery(s, arrivals, j).Some?
    ensures IsSent(s, msgs, arrivals[j], i) && i < |msgs| && Delivery(s, arrivals, j) == Some(msgs[i])
  {
    hide Delivery, Passes, IsSent, Opened, Checked, WellFormed, Sendable, ReplayWindow.Acceptable, ReplayWindow.After;
    DeliveryMeans(s, arrivals, j);
    i :| IsSent(s, msgs, arrivals[j], i);
    SentMessageOpens(s, msgs, arrivals[j], i);
  }

  /** No message is delivered twice. */
  lemma DeliveredOnce(s: Session, msgs: seq<seq<byte>>, arrivals: seq<Packet>, i: nat, j: nat, j': nat)
    requires AllWellFormed(arrivals) && j < j' < |arrivals|
    requires IsSent(s, msgs, arrivals[j], i) && IsSent(s, msgs, arrivals[j'], i)
    ensures !(Delivery(s, arrivals, j).Some? && Delivery(s, arrivals, j').Some?)
  {
    hide Delivery, Passes, IsSent, Opened, Checked, WellFormed, ReplayWindow.Acceptable, ReplayWindow.After;
    SentNumber(s, msgs, arrivals[j], i);
    SentNumber(s, msgs, arrivals[j'], i);
    DeliveryMeans(s, arrivals, j);
    DeliveryMeans(s, arrivals, j');
    if Delivery(s, arrivals, j).Some? && Delivery(s, arrivals, j').Some? {
      var n := |arrivals|;
      CheckedPrefix(s, arrivals, j, n);
      CheckedPrefix(s, arrivals, j', n);
      CheckedPrefix(s, arrivals, j, j');
      ReplayWindow.AtMostOnce(Checked(s, arrivals, n), |Checked(s, arrivals, j)|, |Checked(s, arrivals, j')|);
    }
  }

  /** A message's first copy is delivered unless a packet 2048 or more numbers ahead came before it. */
  lemma FirstCopyArrives(s: Session, msgs: seq<seq<byte>>, arrivals: seq<Packet>, i: nat, j: nat)
    requires Sendable(msgs) && AllWellFormed(arrivals) && j < |arrivals| && IsSent(s, msgs, arrivals[j], i)
    requires forall j' :: 0 <= j' < j && Passes(s, arrivals[j']) ==>
      arrivals[j'].sequence != i && arrivals[j'].sequence as int - i < ReplayWindow.WINDOW_BITS
    ensures i < |msgs| && Delivery(s, arrivals, j) == Some(msgs[i])
  {
    hide Delivery, Passes, IsSent, Opened, Checked, WellFormed, Sendable, ReplayWindow.Acceptable, ReplayWindow.After;
    SentMessageOpens(s, msgs, arrivals[j], i);
    DeliveryMeans(s, arrivals, j);
    var before := Checked(s, arrivals, j);
    CheckedMembers(s, arrivals, j);
    var packets := before + [i as int];
    assert forall k :: 0 <= k < |before| ==> packets[k] in before;
    ReplayWindow.FirstCopyDelivered(packets, |before|);
    assert packets[..|before|] == before;
  }

  // ------------------------------------------------------------ the object

  class Channel {
    const session: Session
    const gcm: bool
    var sendSequence: uint64
    const window: ReplayWindow.Window

    constructor (session: Session, gcm: bool)
      ensures this.session == session && this.gcm == gcm && sendSequence == 0
      ensures window.Valid() && fresh(window) && fresh(window.bitmap) && window.Abs() == ReplayWindow.After([])
    {
      this.session, this.gcm, sendSequence := session, gcm, 0;
      window := new ReplayWindow.Window();
    }

    /** aesCtr */
    method AesCtr(input: seq<byte>, sequence: uint64) returns (output: seq<byte>)
      ensures output == Ctr.Crypt(session.encrypt, Nonce(session), sequence, input)
    {
      var suffix: seq<byte> := [0x61, 0x65, 0x73, 0x5f, 0x6e, 0x6f, 0x6e, 0x63, 0x65, 0x5f, 0x76, 0x31];
      var digest := Sha256.Sha256(session.compression, session.key + suffix);
      hide Ctr.Crypt, Sha256.Hash;
      var out := new byte[|input|](_ => 0);
      Ctr.Aes256Ctr(session.encrypt, digest[..12], sequence, input, out);
      output := out[..];
      assert out[..|input|] == out[..];
    }

    /** sendSecure up to the socket; `iv` is the random initialisation vector of the GCM mode. */
    method SendSecure(data: seq<byte>, iv: seq<byte>) returns (p: Packet)
      requires |iv| == 12
      modifies this`sendSequence
      ensures Made(session, p, old(sendSequence), data) && p.auth.Tagged? == gcm
      ensures gcm ==> p.auth.iv == iv
      ensures sendSequence == (old(sendSequence) as int + 1) % TWO_64
    {
      hide Ctr.Crypt, Nonce, Gcm.Tag, Header, Pbkdf2.Hmac;
      var sequence := sendSequence;
      sendSequence := (sendSequence as int + 1) % TWO_64;
      var length: uint32 := |data| % 0x1_0000_0000;
      if gcm {
        var cipher, tag := Gcm.Encrypt(session.encrypt, iv, Header(sequence, length), data);
        p := Packet(sequence, length, Tagged(iv, tag[..]), cipher[..]);
      } else {
        var payload := AesCtr(data, sequence);
        var mac := Pbkdf2.HmacSha256(session.compression, session.key, Header(sequence, length) + payload);
        p := Packet(sequence, length, Mac(mac), payload);
      }
    }

    /** recvSecure, on a packet whose header has been validated. */
    method RecvSecure(p: Packet) returns (data: Option<seq<byte>>)
      requires window.Valid() && WellFormed(p)
      modifies window, window.bitmap
      ensures window.Valid() && window.bitmap == old(window.bitmap)
      ensures
        var passes, history := Passes(session, p), old(window.Abs());
        && window.Abs() == (if passes then ReplayWindow.Receive(history, p.sequence) else history)
        && data == if passes && ReplayWindow.Acceptable(history, p.sequence) then Some(Opened(session, p)) else None
    {
      hide Ctr.Crypt, Nonce, Gcm.Tag, Header, Pbkdf2.Hmac, ReplayWindow.Receive, ReplayWindow.Acceptable;
      if p.length > MAX_PAYLOAD {
        return None;
      }
      var clear: seq<byte> := [];
      match p.auth {
        case Tagged(iv, tag) =>
          var ok, plain := Gcm.Decrypt(session.encrypt, iv, Header(p.sequence, p.length), p.payload, tag);
          clear := plain[..];
          if !ok {
            return None;
          }
        case Mac(mac) =>
          var expected := Pbkdf2.HmacSha256(session.compression, session.key, Header(p.sequence, p.length) + p.payload);
          var ok := Gcm.SecureCompare(mac, expected);
          if !ok {
            return None;
          }
      }
      var ok := window.Check(p.sequence);
      if !ok {
        return None;
      }
      if p.auth.Mac? {
        clear := AesCtr(p.payload, p.sequence);
      }
      return Some(clear);
    }
  }

  lemma CheckedNext(s: Session, arrivals: seq<Packet>, n: nat)
    requires AllWellFormed(arrivals) && n < |arrivals|
    ensures WellFormed(arrivals[n])
    ensures ReplayWindow.After(Checked(s, arrivals, n + 1)) ==
      if Passes(s, arrivals[n])
      then ReplayWindow.Receive(ReplayWindow.After(Checked(s, arrivals, n)), arrivals[n].sequence)
      else ReplayWindow.After(Checked(s, arrivals, n))
  {
    hide Passes, ReplayWindow.Receive, WellFormed;
    var front := Checked(s, arrivals, n);
    var all := front + [arrivals[n].sequence as int];
    assert all[..|all| - 1] == front;
  }

  /** A receiver's lifetime: the object delivers what the theorems above speak of. */
  method ReceiveAll(session: Session, gcm: bool, arrivals: seq<Packet>) returns (out: seq<Option<seq<byte>>>)
    requires AllWellFormed(arrivals)
    ensures |out| == |arrivals| && forall j :: 0 <= j < |out| ==> out[j] == Delivery(session, arrivals, j)
  {
    hide Passes, Opened, WellFormed, Checked, Delivery, ReplayWindow.Receive, ReplayWindow.Acceptable;
    var channel := new Channel(session, gcm);
    var window := channel.window;
    out := [];
    NothingChecked(session, arrivals);
    for n := 0 to |arrivals|
      invariant fresh(channel) && channel.session == session && channel.window == window
      invariant fresh(window) && fresh(window.bitmap) && window.Valid()
      invariant window.Abs() == ReplayWindow.After(Checked(session, arrivals, n))
      invariant |out| == n && forall j :: 0 <= j < n ==> out[j] == Delivery(session, arrivals, j)
    {
      CheckedNext(session, arrivals, n);
      DeliveryMeans(session, arrivals, n);
      var data := channel.RecvSecure(arrivals[n]);
      out := out + [data];
    }
  }

  lemma NothingChecked(s: Session, arrivals: seq<Packet>)
    requires AllWellFormed(arrivals)
    ensures Checked(s, arrivals, 0) == []
  {
  }

  /** Over a network that loses and reorders nothing, every message arrives. */
  method Transfer(session: Session, gcm: bool, msgs: seq<seq<byte>>, ivs: seq<seq<byte>>)
    returns (out: seq<Option<seq<byte>>>)
    requires Sendable(msgs) && |ivs| == |msgs| && forall i :: 0 <= i < |ivs| ==> |ivs[i]| == 12
    ensures |out| == |msgs| && forall i :: 0 <= i < |msgs| ==> out[i] == Some(msgs[i])
  {
    hide Passes, Made, Opened, WellFormed, Delivery;
    var sender := new Channel(session, gcm);
    var packets := [];
    for i := 0 to |msgs|
      invariant fresh(sender) && sender.session == session && sender.sendSequence == i % TWO_64
      invariant |packets| == i && forall k :: 0 <= k < i ==> IsSent(session, msgs, packets[k], k)
    {
      var p := sender.SendSecure(msgs[i], ivs[i]);
      packets := packets + [p];
    }
    forall p | p in packets
      ensures WellFormed(p)
    {
      var k :| 0 <= k < |packets| && packets[k] == p;
      SentMessageOpens(session, msgs, p, k);
    }
    forall j | 0 <= j < |packets|
      ensures packets[j].sequence == j
    {
      SentNumber(session, msgs, packets[j], j);
    }
    out := ReceiveAll(session, gcm, packets);
    forall j | 0 <= j < |msgs|
      ensures out[j] == Some(msgs[j])
    {
      FirstCopyArrives(session, msgs, packets, j, j);
    }
  }
}
