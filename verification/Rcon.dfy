/**
 The Source RCON client of internal/command/rcon.go: packet framing as the Basic Packet Structure
 section of Valve's Source RCON Protocol has it, and one command's exchange over a connection that
 may take only some of the bytes and deliver only some of the replies.
*/
module Rcon {
  import opened Optional
  import opened Bytes

  const RESPONSE: int32 := 0
  const COMMAND: int32 := 2
  const LOGIN: int32 := 3
  const MAX_PACKET: nat := 65536

  datatype Packet = Packet(id: int32, typ: int32, body: seq<byte>)

  // ----- framing -----

  predicate Fits(body: seq<byte>) { 4 + 4 + |body| + 2 <= MAX_PACKET }

  /** What the length counts: the id, the type, the body and two zero bytes. */
  function Payload(p: Packet): (raw: seq<byte>)
    ensures |raw| == 10 + |p.body|
  {
    PutLe32(BitsOf(p.id)) + PutLe32(BitsOf(p.typ)) + p.body + [0, 0]
  }

  /** The bytes of a packet. */
  function Encoded(p: Packet): (raw: seq<byte>)
    requires Fits(p.body)
    ensures |raw| == 14 + |p.body|
  {
    PutLe32(10 + |p.body|) + Payload(p)
  }

  function PayloadPacket(raw: seq<byte>): Packet
    requires |raw| >= 10
  {
    Packet(SignedOf(Le32(raw, 0)), SignedOf(Le32(raw, 4)), raw[8..|raw| - 2])
  }

  datatype ReadResult = Got(packet: Packet, rest: seq<byte>) | Broken

  /** One packet off the front of what the peer sends; Broken when it is cut short or malformed. */
  function Decoded(s: seq<byte>): ReadResult {
    if |s| < 4 then Broken
    else
      var size := Le32(s, 0);
      if size < 10 || size > MAX_PACKET || |s| < 4 + size then Broken
      else
        var raw := s[4..4 + size];
        if raw[size - 2] != 0 || raw[size - 1] != 0 then Broken
        else Got(PayloadPacket(raw), s[4 + size..])
  }

  lemma {:induction false} PayloadReadBack(p: Packet)
    ensures PayloadPacket(Payload(p)) == p
    ensures Payload(p)[8 + |p.body|] == 0 && Payload(p)[9 + |p.body|] == 0
  {
    hide PutLe32, Le32, BitsOf, SignedOf;
    var id, typ := PutLe32(BitsOf(p.id)), PutLe32(BitsOf(p.typ));
    var raw := Payload(p);
    assert raw == [] + id + (typ + p.body + [0, 0]);
    WordIn([], BitsOf(p.id), typ + p.body + [0, 0], 0);
    assert raw == id + typ + (p.body + [0, 0]);
    WordIn(id, BitsOf(p.typ), p.body + [0, 0], |id|);
    BitsAndSigned(p.id, 0);
    BitsAndSigned(p.typ, 0);
    assert raw[8..|raw| - 2] == p.body;
  }

  lemma {:induction false} PayloadWrittenBack(raw: seq<byte>)
    requires |raw| >= 10 && raw[|raw| - 2] == 0 && raw[|raw| - 1] == 0
    ensures Payload(PayloadPacket(raw)) == raw
  {
    hide PutLe32, Le32, BitsOf, SignedOf;
    Le32At(raw, 0);
    Le32At(raw, 4);
    BitsAndSigned(0, Le32(raw, 0));
    BitsAndSigned(0, Le32(raw, 4));
    assert raw == raw[0..4] + raw[4..8] + raw[8..|raw| - 2] + [0, 0];
  }

  /** Reading a written packet gives it back, and leaves what follows untouched. */
  lemma {:induction false} WriteThenRead(p: Packet, rest: seq<byte>)
    requires Fits(p.body)
    ensures Decoded(Encoded(p) + rest) == Got(p, rest)
  {
    var size, s := 10 + |p.body|, Encoded(p) + rest;
    PayloadReadBack(p);
    hide PutLe32, Le32, Payload, PayloadPacket;
    assert s == [] + PutLe32(size) + (Payload(p) + rest);
    WordIn([], size, Payload(p) + rest, 0);
    assert s[4..4 + size] == Payload(p);
    assert s[4 + size..] == rest;
  }

  /** Writing an accepted packet gives back the very bytes it was read from. */
  lemma {:induction false} ReadThenWrite(s: seq<byte>)
    requires Decoded(s).Got?
    ensures Fits(Decoded(s).packet.body)
    ensures s == Encoded(Decoded(s).packet) + Decoded(s).rest
  {
    hide PutLe32, Le32, Payload;
    var size := Le32(s, 0);
    Le32At(s, 0);
    PayloadWrittenBack(s[4..4 + size]);
    assert s == s[0..4] + s[4..4 + size] + s[4 + size..];
  }

  /** Nothing short of the whole packet is accepted. */
  lemma {:induction false} CutPacketIsBroken(p: Packet, n: nat)
    requires Fits(p.body) && n < |Encoded(p)|
    ensures Decoded(Encoded(p)[..n]) == Broken
  {
    hide PutLe32, Le32, Payload;
    var cut := Encoded(p)[..n];
    if n >= 4 {
      assert cut == [] + PutLe32(10 + |p.body|) + cut[4..];
      WordIn([], 10 + |p.body|, cut[4..], 0);
    }
  }

  function WriteAll(packets: seq<Packet>): seq<byte>
    requires forall p :: p in packets ==> Fits(p.body)
  {
    if packets == [] then [] else Encoded(packets[0]) + WriteAll(packets[1..])
  }

  /** All packets of a stream, None when it does not split into packets exactly. */
  function ReadAll(s: seq<byte>): Option<seq<Packet>>
    decreases |s|
  {
    if s == [] then Some([])
    else
      match Decoded(s)
      case Broken => None
      case Got(p, rest) =>
        match ReadAll(rest)
        case None => None
        case Some(packets) => Some([p] + packets)
  }

  lemma {:induction false} ReadAllStep(p: Packet, tail: seq<byte>, packets: seq<Packet>)
    requires Fits(p.body) && ReadAll(tail) == Some(packets)
    ensures ReadAll(Encoded(p) + tail) == Some([p] + packets)
  {
    hide Encoded;
    WriteThenRead(p, tail);
    hide Decoded;
    assert |Encoded(p) + tail| > 0;
  }

  lemma {:induction false} StreamWriteThenRead(packets: seq<Packet>)
    requires forall p :: p in packets ==> Fits(p.body)
    ensures ReadAll(WriteAll(packets)) == Some(packets)
    decreases |packets|
  {
    if packets != [] {
      hide ReadAll, Encoded;
      StreamWriteThenRead(packets[1..]);
      ReadAllStep(packets[0], WriteAll(packets[1..]), packets[1..]);
      assert [packets[0]] + packets[1..] == packets;
    }
  }

  lemma {:induction false} StreamReadThenWrite(s: seq<byte>)
    requires ReadAll(s).Some?
    ensures forall p :: p in ReadAll(s).value ==> Fits(p.body)
    ensures WriteAll(ReadAll(s).value) == s
    decreases |s|
  {
    if s != [] {
      ReadThenWrite(s);
      StreamReadThenWrite(Decoded(s).rest);
    }
  }

  // ----- one command -----

  datatype Error = SendLogin | ReadLogin | Authentication | UnexpectedLogin | SendCommand | ReadReply | UnexpectedReply

  /** The reply's body, or a failure and whether it carries ErrNoReply. */
  datatype Outcome = Reply(body: seq<byte>) | Failed(error: Error, noReply: bool)

  function LoginPacket(password: seq<byte>): Packet { Packet(1, LOGIN, password) }

  function CommandPacket(command: seq<byte>): Packet { Packet(2, COMMAND, command) }

  /** readLoginReply: the reply, past the empty response packet a standard server sends first. */
  function LoginReply(s: seq<byte>): ReadResult {
    match Decoded(s)
    case Broken => Broken
    case Got(p, rest) => if p.typ == RESPONSE && p.body == [] then Decoded(rest) else Got(p, rest)
  }

  predicate LoggedIn(r: ReadResult) {
    r.Got? && r.packet.id == 1 && r.packet.typ == COMMAND
  }

  predicate IsReply(r: ReadResult) {
    r.Got? && r.packet.id == 2 && (r.packet.typ == COMMAND || r.packet.typ == RESPONSE)
  }

  predicate LoginGoesOut(room: nat, password: seq<byte>) { Fits(password) && 14 + |password| <= room }

  predicate CommandGoesOut(incoming: seq<byte>, room: nat, password: seq<byte>, command: seq<byte>) {
    && ReachesCommand(incoming, room, password)
    && Fits(command) && 28 + |password| + |command| <= room
  }

  /** Whether the exchange gets as far as the command: the login went out whole and was accepted. */
  predicate ReachesCommand(incoming: seq<byte>, room: nat, password: seq<byte>) {
    Fits(password) && 14 + |password| <= room && LoggedIn(LoginReply(incoming))
  }

  /**
   When ErrNoReply is carried although the server cannot have run the command: it is too long to
   frame, or the connection has no room for its first byte.
   */
  predicate NothingSent(password: seq<byte>, command: seq<byte>, room: nat)
    requires Fits(password)
  {
    !Fits(command) || room == 14 + |password|
  }

  class Conn {
    var incoming: seq<byte>   // what the server will still send before the connection ends or times out
    var room: nat             // how many more bytes the connection takes
    ghost var sent: seq<byte>

    /** conn.Write: all of raw, or an error after as much as there was room for. */
    method Write(raw: seq<byte>) returns (ok: bool)
      modifies this
      ensures incoming == old(incoming)
      ensures ok <==> |raw| <= old(room)
      ensures sent == old(sent) + if ok then raw else raw[..old(room)]
      ensures room == if ok then old(room) - |raw| else 0
    {
      if |raw| <= room {
        sent, room := sent + raw, room - |raw|;
        return true;
      }
      sent, room := sent + raw[..room], 0;
      return false;
    }

    /** writePacket: the packet built in a buffer of its own and written in one call. */
    method WritePacket(p: Packet) returns (ok: bool)
      modifies this
      ensures incoming == old(incoming)
      ensures ok <==> Fits(p.body) && 14 + |p.body| <= old(room)
      ensures ok ==> sent == old(sent) + Encoded(p) && room == old(room) - |Encoded(p)|
      ensures !ok ==> sent == old(sent) + if Fits(p.body) then Encoded(p)[..old(room)] else []
    {
      var length := 4 + 4 + |p.body| + 2;
      if length > MAX_PACKET {
        assert old(sent) + [] == old(sent);
        return false;
      }
      var raw := Frame(p);
      hide Encoded;
      ok := Write(raw[..]);
    }

    /** readPacket: the size, then that many bytes; what is left stays for the next read. */
    method ReadPacket() returns (r: ReadResult)
      modifies this`incoming
      ensures r == Decoded(old(incoming))
      ensures r.Got? ==> incoming == r.rest
    {
      if |incoming| < 4 {
        return Broken;
      }
      var size := Le32(incoming, 0);
      if size < 10 || size > MAX_PACKET || |incoming| - 4 < size {
        return Broken;
      }
      var raw := incoming[4..4 + size];
      incoming := incoming[4 + size..];
      if raw[|raw| - 2] != 0 || raw[|raw| - 1] != 0 {
        return Broken;
      }
      return Got(PayloadPacket(raw), incoming);
    }

    method ReadLoginReply() returns (r: ReadResult)
      modifies this`incoming
      ensures r == LoginReply(old(incoming))
      ensures r.Got? ==> incoming == r.rest
    {
      r := ReadPacket();
      if r.Got? && r.packet.typ == RESPONSE && r.packet.body == [] {
        r := ReadPacket();
      }
    }

    /**
     executeRCON. The command is written at most once, only after the server accepted the login, and
     a failure carries ErrNoReply exactly when the exchange got as far as writing it.
     */
    method ExecuteRCON(password: seq<byte>, command: seq<byte>) returns (out: Outcome)
      requires sent == []
      modifies this
      ensures Fits(password) && Fits(command) ==>
                sent <= Encoded(LoginPacket(password)) + Encoded(CommandPacket(command))
      ensures !ReachesCommand(old(incoming), old(room), password) ==>
                out.Failed? && !out.noReply && (Fits(password) ==> sent <= Encoded(LoginPacket(password)))
      ensures ReachesCommand(old(incoming), old(room), password) && out.Failed? ==> out.noReply
      ensures out.Failed? && out.noReply ==> Fits(password)
      ensures out.Failed? && out.noReply ==>
                (sent == Encoded(LoginPacket(password)) <==> NothingSent(password, command, old(room)))
      ensures out == Failed(Authentication, false) <==>
                && Fits(password) && 14 + |password| <= old(room)
                && LoginReply(old(incoming)).Got? && LoginReply(old(incoming)).packet.id == -1
      ensures out == Failed(SendLogin, false) <==> !LoginGoesOut(old(room), password)
      ensures out == Failed(ReadLogin, false) <==>
                LoginGoesOut(old(room), password) && LoginReply(old(incoming)).Broken?
      ensures out == Failed(UnexpectedLogin, false) <==>
                && LoginGoesOut(old(room), password) && LoginReply(old(incoming)).Got?
                && LoginReply(old(incoming)).packet.id != -1 && !LoggedIn(LoginReply(old(incoming)))
      ensures out == Failed(SendCommand, true) <==>
                && ReachesCommand(old(incoming), old(room), password)
                && !(Fits(command) && 28 + |password| + |command| <= old(room))
      ensures out == Failed(ReadReply, true) <==>
                CommandGoesOut(old(incoming), old(room), password, command)
                && Decoded(LoginReply(old(incoming)).rest).Broken?
      ensures out == Failed(UnexpectedReply, true) <==>
                CommandGoesOut(old(incoming), old(room), password, command)
                && Decoded(LoginReply(old(incoming)).rest).Got? && !IsReply(Decoded(LoginReply(old(incoming)).rest))
      ensures out.Reply? <==>
                && ReachesCommand(old(incoming), old(room), password)
                && Fits(command) && 28 + |password| + |command| <= old(room)
                && IsReply(Decoded(LoginReply(old(incoming)).rest))
      ensures out.Reply? ==>
                && out.body == Decoded(LoginReply(old(incoming)).rest).packet.body
                && sent == Encoded(LoginPacket(password)) + Encoded(CommandPacket(command))
    {
      var ok := WritePacket(LoginPacket(password));
      if !ok { return Failed(SendLogin, false); }
      var login := ReadLoginReply();
      if login.Broken? { return Failed(ReadLogin, false); }
      if login.packet.id == -1 { return Failed(Authentication, false); }
      if login.packet.id != 1 || login.packet.typ != COMMAND { return Failed(UnexpectedLogin, false); }
      assert sent == Encoded(LoginPacket(password));
      ok := WritePacket(CommandPacket(command));
      if !ok { return Failed(SendCommand, true); }
      var response := ReadPacket();
      if response.Broken? { return Failed(ReadReply, true); }
      if response.packet.id != 2 || (response.packet.typ != COMMAND && response.packet.typ != RESPONSE) {
        return Failed(UnexpectedReply, true);
      }
      return Reply(response.packet.body);
    }
  }

  /** The packet in a buffer of exactly its size, the terminator being what the buffer starts as. */
  method Frame(p: Packet) returns (raw: array<byte>)
    requires Fits(p.body)
    ensures fresh(raw) && raw[..] == Encoded(p)
  {
    hide PutLe32, BitsOf;
    var length := 4 + 4 + |p.body| + 2;
    raw := new byte[4 + length](_ => 0);
    PutWord(raw, 0, length);
    PutWord(raw, 4, BitsOf(p.id));
    PutWord(raw, 8, BitsOf(p.typ));
    CopyInto(raw, 12, p.body);
    assert raw[..] == raw[..12 + |p.body|] + [0, 0];
    Concat4(PutLe32(length), PutLe32(BitsOf(p.id)), PutLe32(BitsOf(p.typ)), p.body);
  }

  lemma {:induction false} Concat4(a: seq<byte>, b: seq<byte>, c: seq<byte>, d: seq<byte>)
    ensures a + b + c + d + [0, 0] == a + (b + c + d + [0, 0])
  {
  }

  method PutWord(raw: array<byte>, off: nat, n: uint32)
    requires off + 4 <= raw.Length
    modifies raw
    ensures raw[..off + 4] == old(raw[..off]) + PutLe32(n)
    ensures forall k :: off + 4 <= k < raw.Length ==> raw[k] == old(raw[k])
  {
    var word := PutLe32(n);
    hide PutLe32;
    raw[off], raw[off + 1], raw[off + 2], raw[off + 3] := word[0], word[1], word[2], word[3];
  }

  method CopyInto(raw: array<byte>, off: nat, body: seq<byte>)
    requires off + |body| <= raw.Length
    modifies raw
    ensures raw[..off + |body|] == old(raw[..off]) + body
    ensures forall k :: off + |body| <= k < raw.Length ==> raw[k] == old(raw[k])
  {
    for i := 0 to |body|
      invariant raw[..off] == old(raw[..off])
      invariant forall k :: 0 <= k < i ==> raw[off + k] == body[k]
      invariant forall k :: off + |body| <= k < raw.Length ==> raw[k] == old(raw[k])
    {
      raw[off + i] := body[i];
    }
  }

  /** The login reply is read past the empty response packet a standard server greets with, if there is one. */
  lemma {:induction false} LoginIsRead(greeting: bool, login: Packet, rest: seq<byte>)
    requires Fits(login.body) && !(login.typ == RESPONSE && login.body == [])
    ensures
      var greet := if greeting then Encoded(Packet(1, RESPONSE, [])) else [];
      LoginReply(greet + (Encoded(login) + rest)) == Got(login, rest)
  {
    WriteThenRead(login, rest);
    WriteThenRead(Packet(1, RESPONSE, []), Encoded(login) + rest);
    hide Encoded, Decoded;
    assert [] + (Encoded(login) + rest) == Encoded(login) + rest;
  }

  /**
   A server that accepts the login and answers is heard, whatever it sends ahead of the login reply
   and whatever follows the answer.
   */
  lemma {:induction false} AnsweredCommand(greeting: bool, body: seq<byte>, typ: int32, rest: seq<byte>)
    requires Fits(body) && (typ == COMMAND || typ == RESPONSE)
    ensures
      var login := (if greeting then Encoded(Packet(1, RESPONSE, [])) else []) + Encoded(Packet(1, COMMAND, []));
      var incoming := login + (Encoded(Packet(2, typ, body)) + rest);
      LoggedIn(LoginReply(incoming)) && Decoded(LoginReply(incoming).rest) == Got(Packet(2, typ, body), rest)
  {
    hide Encoded, Decoded, LoginReply;
    var greet := if greeting then Encoded(Packet(1, RESPONSE, [])) else [];
    var reply, answer := Encoded(Packet(1, COMMAND, [])), Encoded(Packet(2, typ, body)) + rest;
    WriteThenRead(Packet(2, typ, body), rest);
    LoginIsRead(greeting, Packet(1, COMMAND, []), answer);
    assert greet + reply + answer == greet + (reply + answer);
  }

  /** Of two greetings only the first is passed over. */
  lemma {:induction false} OneGreetingIsSkipped(rest: seq<byte>)
    ensures
      var greet := Encoded(Packet(1, RESPONSE, []));
      LoginReply(greet + (greet + rest)) == Got(Packet(1, RESPONSE, []), rest)
  {
    var greet := Encoded(Packet(1, RESPONSE, []));
    WriteThenRead(Packet(1, RESPONSE, []), greet + rest);
    WriteThenRead(Packet(1, RESPONSE, []), rest);
    hide Encoded, Decoded;
  }

  // ----- on the wire -----

  /**
   The two packets a short exchange sends, byte by byte: the length, the id, the type, the body, two zeros. And a
   refused login, whose id is minus one.
  */
  lemma {:induction false} OnTheWire(body: seq<byte>)
    requires |body| < 246
    ensures Encoded(LoginPacket(body)) == [(10 + |body|) as byte, 0, 0, 0, 1, 0, 0, 0, 3, 0, 0, 0] + body + [0, 0]
    ensures Encoded(CommandPacket(body)) == [(10 + |body|) as byte, 0, 0, 0, 2, 0, 0, 0, 2, 0, 0, 0] + body + [0, 0]
    ensures Decoded([10, 0, 0, 0, 255, 255, 255, 255, 2, 0, 0, 0, 0, 0]) == Got(Packet(-1, 2, []), [])
  {
    hide Encoded, Decoded, PutLe32, BitsOf;
    PacketBytes(1, LOGIN, body);
    PacketBytes(2, COMMAND, body);
    RefusalIsRead();
  }

  lemma {:induction false} PacketBytes(id: int32, typ: int32, body: seq<byte>)
    requires 0 <= id < 256 && 0 <= typ < 256 && |body| < 246
    ensures Fits(body)
    ensures Encoded(Packet(id, typ, body))
            == [(10 + |body|) as byte, 0, 0, 0, id as byte, 0, 0, 0, typ as byte, 0, 0, 0] + body + [0, 0]
  {
    SmallWord(10 + |body|);
    SmallWord(id);
    SmallWord(typ);
    hide PutLe32, BitsOf;
  }

  lemma {:induction false} RefusalIsRead()
    ensures Decoded([10, 0, 0, 0, 255, 255, 255, 255, 2, 0, 0, 0, 0, 0]) == Got(Packet(-1, 2, []), [])
  {
    SmallWord(2);
    SmallWord(10);
    MinusOne();
    hide PutLe32, BitsOf, Decoded;
    WriteThenRead(Packet(-1, 2, []), []);
    assert Encoded(Packet(-1, 2, [])) + [] == [10, 0, 0, 0, 255, 255, 255, 255, 2, 0, 0, 0, 0, 0];
  }

  /** The longest body goes with a length of 65536. */
  lemma {:induction false} LongestBody(body: seq<byte>)
    ensures Fits(body) <==> |body| <= 65526
  {
  }

  lemma {:induction false} SmallWord(n: int32)
    requires 0 <= n < 256
    ensures PutLe32(n) == [n as byte, 0, 0, 0] && BitsOf(n) == n
  {
  }

  lemma {:induction false} MinusOne()
    ensures PutLe32(BitsOf(-1)) == [255, 255, 255, 255]
  {
  }
}
