/** The simulated PZEM's answer to one Modbus request (scripts/pzem_socket_sim.py:43-71). */
module PzemFrames {
  import opened Options
  import opened Bits
  import opened Crc16

  type Word = w: nat | w < 0x10000

  const READ_HOLDING: Byte := 3

  /** The registers the simulator knows, by the name their value is kept under. */
  const REGISTERS: map<nat, string> :=
    map[0x0000 := "voltage", 0x0008 := "current", 0x0012 := "power", 0x0046 := "frequency", 0x0100 := "energy"]

  datatype Refusal =
    | TooShort
    | CrcMismatch
    | NotOneRequest
    | UnsupportedFunction
    | UnsupportedRegister
    | NoValue
    | ValueDoesNotFit
    | UnsupportedCount

  datatype Answer = Frame(bytes: seq<Byte>) | Refused(why: Refusal)

  /** What a master asks, and what it reads back. */
  datatype Request = Request(slave: Byte, code: Byte, register: Word, count: Word)
  datatype Reading = Reading(slave: Byte, registers: nat, value: nat)
  // ----- Byte layouts -----

  /** `value` as `n` bytes, highest first. */
  function BigEndian(value: nat, n: nat): (bytes: seq<Byte>)
    ensures |bytes| == n
  {
    if n == 0 then [] else BigEndian(value / 256, n - 1) + [value % 256]
  }

  function FromBigEndian(bytes: seq<Byte>): nat {
    if bytes == [] then 0 else 256 * FromBigEndian(bytes[..|bytes| - 1]) + bytes[|bytes| - 1]
  }

  lemma {:induction false} BigEndianRoundTrip(value: nat, n: nat)
    requires value < Pow256(n)
    ensures FromBigEndian(BigEndian(value, n)) == value
  {
    if n > 0 {
      BigEndianRoundTrip(value / 256, n - 1);
      var bytes := BigEndian(value, n);
      assert bytes[..n - 1] == BigEndian(value / 256, n - 1);
    }
  }

  /** A word and a double word, byte by byte. */
  lemma BigEndianBytes(value: nat)
    ensures BigEndian(value, 2) == [value / 256 % 256, value % 256]
    ensures BigEndian(value, 4)
            == [value / 0x100_0000 % 256, value / 0x10000 % 256, value / 256 % 256, value % 256]
  {
    assert value / 256 / 256 == value / 0x10000 && value / 256 / 256 / 256 == value / 0x100_0000;
    assert BigEndian(value / 256 / 256, 2) == [value / 0x100_0000 % 256, value / 0x10000 % 256];
  }

  /** `message` with its checksum after it, low byte first. */
  function Sealed(message: seq<Byte>): (frame: seq<Byte>)
    ensures |frame| == |message| + 2
  {
    CrcIsWord(message);
    message + Trailer(Crc(message))
  }

  predicate TrailerMatches(frame: seq<Byte>)
    requires |frame| >= 2
  {
    var n := |frame| - 2;
    LittleEndian(frame[n], frame[n + 1]) == Crc(frame[..n])
  }

  /** The checks a receiver can make agree: the trailer holds the checksum of
      what precedes it exactly when the whole frame checks to zero, exactly when
      the frame was sealed. */
  lemma TrailerMeaning(frame: seq<Byte>)
    requires |frame| >= 2
    ensures TrailerMatches(frame) <==> Crc(frame) == 0
    ensures TrailerMatches(frame) <==> frame == Sealed(frame[..|frame| - 2])
  {
    var n := |frame| - 2;
    assert frame == frame[..n] + [frame[n], frame[n + 1]];
    ResidueIsZero(frame[..n], frame[n], frame[n + 1]);
    CrcIsWord(frame[..n]);
    Sixteen();
    if frame == Sealed(frame[..n]) {
      assert frame[n] == Trailer(Crc(frame[..n]))[0] && frame[n + 1] == Trailer(Crc(frame[..n]))[1];
    }
  }

  // ----- The master's side -----

  function RequestBody(q: Request): (bytes: seq<Byte>)
    ensures |bytes| == 6
  {
    [q.slave, q.code] + BigEndian(q.register, 2) + BigEndian(q.count, 2)
  }

  function RequestFrame(q: Request): seq<Byte> {
    Sealed(RequestBody(q))
  }

  /** How a master reads a frame: the checksum first, then the announced length. */
  function ReadResponse(frame: seq<Byte>): Option<Reading> {
    if |frame| < 5 || !TrailerMatches(frame) then None
    else if frame[1] != READ_HOLDING || frame[2] as int != |frame| - 5 then None
    else Some(Reading(frame[0], frame[2] / 2, FromBigEndian(frame[3..|frame| - 2])))
  }

  ghost predicate Servable(q: Request, raw: map<string, int>) {
    && q.code == READ_HOLDING
    && q.register in REGISTERS
    && REGISTERS[q.register] in raw
    && (q.count == 1 || q.count == 2)
    && 0 <= raw[REGISTERS[q.register]] < Pow256(2 * q.count)
  }

  function Word16(high: nat, low: nat): nat {
    256 * high + low
  }

  lemma TwoBytes(w: Word)
    ensures BigEndian(w, 2) == [w / 256, w % 256]
  {
    assert BigEndian(w / 256, 1) == BigEndian(w / 256 / 256, 0) + [(w / 256) % 256];
  }

  /** The request whose six bytes these are. */
  function RequestOf(body: seq<Byte>): (q: Request)
    requires |body| == 6
    ensures RequestBody(q) == body
  {
    var q := Request(body[0], body[1], Word16(body[2], body[3]), Word16(body[4], body[5]));
    TwoBytes(q.register);
    TwoBytes(q.count);
    q
  }

  lemma RequestUnique(p: Request, q: Request)
    requires RequestFrame(p) == RequestFrame(q)
    ensures p == q
  {
    TwoBytes(p.register);
    TwoBytes(p.count);
    TwoBytes(q.register);
    TwoBytes(q.count);
    var a, b := RequestFrame(p), RequestFrame(q);
    assert a[0] == p.slave && a[1] == p.code && a[2] == p.register / 256 && a[3] == p.register % 256;
    assert a[4] == p.count / 256 && a[5] == p.count % 256;
    assert b[0] == q.slave && b[1] == q.code && b[2] == q.register / 256 && b[3] == q.register % 256;
    assert b[4] == q.count / 256 && b[5] == q.count % 256;
  }

  /** The checksum goes after the message low byte first. */
  lemma SealedLayout(message: seq<Byte>)
    ensures var crc := Crc(message);
            crc / 256 < 256 && Sealed(message) == message + [crc % 256, crc / 256]
  {
    CrcIsWord(message);
    Sixteen();
    hide Crc;
  }

  /** A request byte by byte: register and count high byte first. */
  lemma RequestLayout(q: Request)
    ensures var body := RequestBody(q);
            && body == [q.slave, q.code, q.register / 256, q.register % 256, q.count / 256, q.count % 256]
            && Crc(body) / 256 < 256
            && RequestFrame(q) == body + [Crc(body) % 256, Crc(body) / 256]
  {
    hide Crc;
    BigEndianBytes(q.register);
    BigEndianBytes(q.count);
    SealedLayout(RequestBody(q));
  }

  // ----- The simulator's side -----

  lemma ResponseReadsBack(slave: Byte, count: nat, value: nat)
    requires count == 1 || count == 2
    requires value < Pow256(2 * count)
    ensures ReadResponse(Sealed([slave, READ_HOLDING, 2 * count] + BigEndian(value, 2 * count)))
            == Some(Reading(slave, count, value))
  {
    BigEndianRoundTrip(value, 2 * count);
    var message: seq<Byte> := [slave, READ_HOLDING, 2 * count] + BigEndian(value, 2 * count);
    assert message[3..] == BigEndian(value, 2 * count);
    SealedReadsBack(message);
  }

  lemma SealedReadsBack(message: seq<Byte>)
    requires |message| >= 3 && message[1] == READ_HOLDING && message[2] as int == |message| - 3
    ensures ReadResponse(Sealed(message)) == Some(Reading(message[0], message[2] / 2, FromBigEndian(message[3..])))
  {
    hide TrailerMatches, Crc, FromBigEndian;
    var frame := Sealed(message);
    assert frame[..|frame| - 2] == message;
    TrailerMeaning(frame);
    assert frame[3..|frame| - 2] == message[3..];
  }

  /** The answer to a request whose checksum held.  `raw` is each named value
      already divided by its register's scale and rounded, the one
      floating-point step. */
  function Serve(q: Request, raw: map<string, int>): (answer: Answer)
    ensures answer.Frame? <==> Servable(q, raw)
    ensures answer.Frame? ==>
              && Crc(answer.bytes) == 0
              && ReadResponse(answer.bytes) == Some(Reading(q.slave, q.count, raw[REGISTERS[q.register]]))
    ensures answer.Refused? ==>
              answer.why in {UnsupportedFunction, UnsupportedRegister, NoValue, ValueDoesNotFit, UnsupportedCount}
  {
    assert Pow256(2) == 0x10000 && Pow256(4) == 0x1_0000_0000;
    if q.code != READ_HOLDING then Refused(UnsupportedFunction)
    else if q.register !in REGISTERS then Refused(UnsupportedRegister)
    else
      var key := REGISTERS[q.register];
      if key !in raw then Refused(NoValue)
      else if q.count == 1 && !(0 <= raw[key] < 0x10000) then Refused(ValueDoesNotFit)
      else if q.count == 2 && !(0 <= raw[key] < 0x1_0000_0000) then Refused(ValueDoesNotFit)
      else if q.count != 1 && q.count != 2 then Refused(UnsupportedCount)
      else
        var data := BigEndian(raw[key], 2 * q.count);
        var message := [q.slave, q.code, |data|] + data;
        ResponseReadsBack(q.slave, q.count, raw[key]);
        TrailerMeaning(Sealed(message));
        Frame(Sealed(message))
  }

  /** An answer byte by byte: slave, function 3, the number of bytes the value takes, and the
      value high byte first. */
  lemma AnswerLayout(q: Request, raw: map<string, int>, body: seq<Byte>)
    requires Servable(q, raw)
    requires var v := raw[REGISTERS[q.register]];
             body == if q.count == 1 then [q.slave, 3, 2, v / 256 % 256, v % 256]
                     else [q.slave, 3, 4, v / 0x100_0000 % 256, v / 0x10000 % 256, v / 256 % 256, v % 256]
    ensures Crc(body) / 256 < 256
    ensures Serve(q, raw) == Frame(body + [Crc(body) % 256, Crc(body) / 256])
  {
    var data := BigEndian(raw[REGISTERS[q.register]], 2 * q.count);
    ServeGives(q, raw);
    BigEndianBytes(raw[REGISTERS[q.register]]);
    hide Crc, Sealed, Serve, BigEndian;
    assert [q.slave, READ_HOLDING, 2 * q.count] + data == body;
    SealedLayout(body);
  }

  lemma ServeGives(q: Request, raw: map<string, int>)
    requires Servable(q, raw)
    ensures Serve(q, raw)
            == Frame(Sealed([q.slave, READ_HOLDING, 2 * q.count] + BigEndian(raw[REGISTERS[q.register]], 2 * q.count)))
  {
    hide Crc, Sealed, BigEndian;
  }

  /** Which refusal goes with which fault. */
  lemma ServeRefusals(q: Request, raw: map<string, int>)
    ensures var answer := Serve(q, raw);
            var held := q.code == 3 && q.register in REGISTERS && REGISTERS[q.register] in raw;
            && (answer == Refused(UnsupportedFunction) <==> q.code != 3)
            && (answer == Refused(UnsupportedRegister) <==> q.code == 3 && q.register !in REGISTERS)
            && (answer == Refused(NoValue)
                <==> q.code == 3 && q.register in REGISTERS && REGISTERS[q.register] !in raw)
            && (answer == Refused(ValueDoesNotFit)
                <==> held && var value := raw[REGISTERS[q.register]];
                             || (q.count == 1 && !(0 <= value < 0x10000))
                             || (q.count == 2 && !(0 <= value < 0x1_0000_0000)))
            && (answer == Refused(UnsupportedCount) <==> held && q.count != 1 && q.count != 2)
  {
    hide Sealed, BigEndian, ReadResponse, Crc;
  }

  /** The answer to the bytes received.

      A frame is answered exactly when some master sent it and asked for
      something the simulator holds; the answer passes every check a request
      must pass, and reads back as the value held. */
  method BuildResponse(bytes: seq<Byte>, raw: map<string, int>) returns (answer: Answer)
    ensures answer == Refused(TooShort) <==> |bytes| < 8
    ensures answer == Refused(CrcMismatch) <==> |bytes| >= 8 && Crc(bytes) != 0
    ensures answer == Refused(NotOneRequest) <==> |bytes| > 8 && Crc(bytes) == 0
    ensures answer.Frame? ==> exists q :: bytes == RequestFrame(q)
    ensures forall q :: bytes == RequestFrame(q) ==> answer == Serve(q, raw)
  {
    forall q | bytes == RequestFrame(q) ensures |bytes| == 8 && Crc(bytes) == 0 {
      assert bytes[..6] == RequestBody(q);
      TrailerMeaning(bytes);
    }
    if |bytes| < 8 {
      return Refused(TooShort);
    }
    var n := |bytes| - 2;
    var payload := bytes[..n];
    var expected := ComputeCrc(payload);
    TrailerMeaning(bytes);
    if LittleEndian(bytes[n], bytes[n + 1]) != expected {
      return Refused(CrcMismatch);
    }
    if |payload| != 6 {
      return Refused(NotOneRequest);
    }
    var request := RequestOf(payload);
    assert bytes == RequestFrame(request);
    forall q | bytes == RequestFrame(q) ensures q == request {
      RequestUnique(q, request);
    }
    answer := Serve(request, raw);
  }

  /** A request damaged within sixteen consecutive bits on the way is refused. */
  lemma DamagedRequestRefused(q: Request, received: seq<Byte>, start: nat)
    requires BurstAt(RequestFrame(q), received, start) && received != RequestFrame(q)
    ensures |received| == 8 && Crc(received) != 0
  {
    var sent := RequestFrame(q);
    assert sent[..6] == RequestBody(q);
    TrailerMeaning(sent);
    BurstDetected(sent, received, start);
  }
}
