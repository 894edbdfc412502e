/** The resumable XMesh packet parser of the Lunix sensor driver. */
module LunixProtocol {
  import opened Bytes

  const MAX_PACKET_LEN := 300
  const PACKET_SIGNATURE_OFFSET := 4
  const NODE_OFFSET := 9
  const VREF_OFFSET := 18
  const TEMPERATURE_OFFSET := 20
  const LIGHT_OFFSET := 22
  const SENSOR_PACKET: byte := 0x0B

  const START_BYTE := 1
  const PACKET_TYPE := 2
  const DESTINATION_ADDRESS := 3
  const AM_TYPE := 4
  const AM_GROUP := 5
  const PAYLOAD_LENGTH := 6
  const PAYLOAD := 7
  const CRC := 8
  const END_BYTE := 9

  const LITERAL_ESCAPE: byte := 0x7E
  const XOR_ESCAPE: byte := 0x7D

  /** The state machine between two bytes: field being read, its progress, pending escape and packet buffer. */
  datatype St = St(field: int, read: int, toRead: int, pos: int, special: byte, packet: seq<byte>)

  datatype Outcome =
    | Waiting(st: St)                       // all input consumed
    | Complete(st: St, packet: seq<byte>)   // one packet finished, the rest of the input is dropped
    | Overflow(st: St)                      // the packet buffer was full

  datatype Sensor = Sensor(batt: nat, temp: nat, light: nat)

  // ----- specification of one call -----

  function Xor20(b: byte): byte {
    if (b / 0x20) % 2 == 1 then b - 0x20 else b + 0x20
  }

  predicate UsesSpecials(field: int) { DESTINATION_ADDRESS <= field <= CRC }

  ghost predicate WellFormed(s: St) {
    && START_BYTE <= s.field <= END_BYTE
    && 0 <= s.read <= s.toRead && 0 <= s.pos <= MAX_PACKET_LEN && |s.packet| == MAX_PACKET_LEN
    && (s.field == PAYLOAD_LENGTH && s.read == s.toRead ==> s.pos > 0)
    && (s.field == PAYLOAD_LENGTH ==> 0 < s.toRead)
  }

  function Stored(s: St, b: byte): St
    requires 0 <= s.pos < |s.packet|
  {
    s.(packet := s.packet[s.pos := b], pos := s.pos + 1, read := s.read + 1)
  }

  function Consume(s: St, b: byte): St
    requires 0 <= s.pos < |s.packet|
  {
    if !UsesSpecials(s.field) then Stored(s, b)
    else if s.special == LITERAL_ESCAPE then Stored(s, b).(special := 0)
    else if s.special == XOR_ESCAPE then Stored(s, Xor20(b)).(special := 0)
    else if s.special != 0 then Stored(s, s.packet[s.pos]).(special := 0)
    else if b == LITERAL_ESCAPE || b == XOR_ESCAPE then s.(special := b)
    else Stored(s, b)
  }

  function FieldLength(s: St, field: int): nat
    requires field == PAYLOAD ==> 0 < s.pos <= |s.packet|
  {
    if field == DESTINATION_ADDRESS || field == CRC then 2
    else if field == PAYLOAD then s.packet[s.pos - 1] as nat
    else 1
  }

  function SetField(s: St, field: int): St
    requires field == PAYLOAD ==> 0 < s.pos <= |s.packet|
  {
    s.(field := field, toRead := FieldLength(s, field), read := 0)
  }

  function Restarted(s: St): St {
    s.(field := START_BYTE, toRead := 1, read := 0, pos := 0, special := 0)
  }

  /** The meaning of one call on the input `rest`: byte by byte, fields that are complete are left at once. */
  ghost function Feed(s: St, rest: seq<byte>): (o: Outcome)
    requires WellFormed(s)
    ensures WellFormed(o.st) && (o.Complete? ==> |o.packet| == MAX_PACKET_LEN)
    decreases |rest|, END_BYTE - s.field
  {
    if s.read == s.toRead then
      if s.field == END_BYTE then Complete(Restarted(s), s.packet) else Feed(SetField(s, s.field + 1), rest)
    else if rest == [] then Waiting(s)
    else if s.pos == MAX_PACKET_LEN then Overflow(s.(pos := 0))
    else Feed(Consume(s, rest[0]), rest[1..])
  }

  // ----- invariant of the reachable states -----

  /** Bytes of the packet in front of a field. */
  function FieldStart(packet: seq<byte>, field: int): nat
    requires |packet| == MAX_PACKET_LEN
  {
    if field <= DESTINATION_ADDRESS then if field <= START_BYTE then 0 else field - 1
    else if field <= PAYLOAD then field
    else 7 + packet[6] as nat + (if field == END_BYTE then 2 else 0)
  }

  /** In every reachable state the position follows from the field, its progress and the stored payload length. */
  ghost predicate Inv(s: St) {
    && WellFormed(s)
    && s.pos == FieldStart(s.packet, s.field) + s.read
    && s.toRead == (if s.field == PAYLOAD then s.packet[6] as int
                    else if s.field == DESTINATION_ADDRESS || s.field == CRC then 2 else 1)
    && s.special in {0, LITERAL_ESCAPE, XOR_ESCAPE}
    && (s.special != 0 ==> UsesSpecials(s.field) && s.read < s.toRead)
  }

  /** Between calls a field is never left complete. */
  ghost predicate Settled(s: St) { Inv(s) && s.read < s.toRead }

  ghost predicate Fresh(s: St) { Settled(s) && s.field == START_BYTE }

  lemma InvBoundsPosition(s: St)
    requires Inv(s)
    ensures s.pos <= 265 && (s.read < s.toRead ==> s.pos <= 264)
  {
  }

  lemma ConsumeKeepsInv(s: St, b: byte)
    requires Settled(s)
    ensures s.pos < MAX_PACKET_LEN && Inv(Consume(s, b))
  {
  }

  lemma SetFieldKeepsInv(s: St)
    requires Inv(s) && s.read == s.toRead && s.field != END_BYTE
    ensures s.field + 1 == PAYLOAD ==> s.pos == 7
    ensures Inv(SetField(s, s.field + 1))
  {
  }

  /** From a reachable state the overflow branch is never taken, and every call ends in a settled state. */
  lemma {:induction false} FeedKeepsInv(s: St, rest: seq<byte>)
    requires Inv(s)
    ensures !Feed(s, rest).Overflow? && Settled(Feed(s, rest).st)
    ensures Feed(s, rest).Complete? ==> Fresh(Feed(s, rest).st) && |Feed(s, rest).packet| == MAX_PACKET_LEN
    decreases |rest|, END_BYTE - s.field
  {
    if s.read == s.toRead {
      if s.field != END_BYTE {
        SetFieldKeepsInv(s);
        FeedKeepsInv(SetField(s, s.field + 1), rest);
      }
    } else if rest != [] {
      ConsumeKeepsInv(s, rest[0]);
      FeedKeepsInv(Consume(s, rest[0]), rest[1..]);
    }
  }

  /** When `a` finishes no packet, feeding a then b is feeding a + b; when it does, b is dropped. */
  lemma {:induction false} FeedSplit(s: St, a: seq<byte>, b: seq<byte>)
    requires Inv(s)
    ensures Feed(s, a + b) == if Feed(s, a).Complete? then Feed(s, a) else Feed(Feed(s, a).st, b)
    ensures !Feed(s, a).Overflow?
    decreases |a|, END_BYTE - s.field
  {
    if s.read == s.toRead {
      if s.field != END_BYTE {
        SetFieldKeepsInv(s);
        FeedSplit(SetField(s, s.field + 1), a, b);
      }
    } else if a == [] {
      assert a + b == b;
    } else {
      ConcatTail(a, b);
      ConsumeKeepsInv(s, a[0]);
      FeedSplit(Consume(s, a[0]), a[1..], b);
    }
  }

  // ----- frames and their encodings -----

  /** Start, type, destination (2), AM type, AM group, payload length, payload, CRC (2), end. */
  predicate IsFrame(f: seq<byte>) {
    |f| >= 10 && |f| == 10 + f[6] as int
  }

  datatype Spelling = Plain | Xored | Literal

  ghost predicate CanSpell(b: byte, how: Spelling) {
    how == Plain ==> b != LITERAL_ESCAPE && b != XOR_ESCAPE
  }

  function ToBits(b: byte): bv8 { b as bv8 }
  function OfBits(v: bv8): byte { v as byte }

  /** A byte on the wire: as it is, behind 0x7D after an exclusive-or with 0x20, or behind 0x7E. */
  function SpellByte(b: byte, how: Spelling): seq<byte> {
    match how
    case Plain => [b]
    case Xored => [XOR_ESCAPE, OfBits(ToBits(b) ^ 0x20)]
    case Literal => [LITERAL_ESCAPE, b]
  }

  predicate Escapable(f: seq<byte>, n: nat) { 2 <= n < |f| - 1 }

  function FrameByte(f: seq<byte>, how: seq<Spelling>, n: nat): seq<byte>
    requires n < |f| == |how|
  {
    if Escapable(f, n) then SpellByte(f[n], how[n]) else [f[n]]
  }

  /** The wire form of a frame from its n-th byte on: the first two bytes and the end byte raw, the middle spelled. */
  function Encode(f: seq<byte>, how: seq<Spelling>, n: nat): seq<byte>
    requires n <= |f| == |how|
    decreases |f| - n
  {
    if n == |f| then [] else FrameByte(f, how, n) + Encode(f, how, n + 1)
  }

  ghost predicate Encodable(f: seq<byte>, how: seq<Spelling>) {
    IsFrame(f) && |how| == |f| && forall n | 0 <= n < |f| :: CanSpell(f[n], how[n])
  }

  /** The parser has stored the first n bytes of frame f. */
  ghost predicate HasRead(s: St, f: seq<byte>, n: nat) {
    Settled(s) && s.special == 0 && s.pos == n < |f| && s.packet[..n] == f[..n]
  }

  lemma XorTwice(b: byte)
    ensures Xor20(Xor20(b)) == b
  {
  }

  /** The escaped forms of the two special bytes. */
  lemma SpecialsSpelled()
    ensures SpellByte(0x7E, Xored) == [0x7D, 0x5E] && SpellByte(0x7D, Xored) == [0x7D, 0x5D]
    ensures SpellByte(0x7E, Literal) == [0x7E, 0x7E] && SpellByte(0x7D, Literal) == [0x7E, 0x7D]
  {
  }

  lemma BitsOfByte(v: bv8)
    ensures ToBits(OfBits(v)) == v
  {
  }

  lemma {:induction false} ByteOfBits(b: byte) returns (v: bv8)
    ensures OfBits(v) == b
    decreases b
  {
    if b == 0 {
      v := 0;
    } else {
      v := ByteOfBits(b - 1);
      v := v + 1;
    }
  }

  lemma XorOfBits(v: bv8)
    ensures Xor20(OfBits(v)) == OfBits(v ^ 0x20)
  {
  }

  /** The parser's arithmetic is the exclusive-or with 0x20. */
  lemma Xor20IsXor(b: byte)
    ensures ToBits(Xor20(b)) == ToBits(b) ^ 0x20
    ensures OfBits(ToBits(b) ^ 0x20) == Xor20(b)
  {
    hide ToBits, OfBits, Xor20;
    var v := ByteOfBits(b);
    BitsOfByte(v);
    XorOfBits(v);
    BitsOfByte(v ^ 0x20);
  }

  lemma StoredPrefix(packet: seq<byte>, f: seq<byte>, n: nat)
    requires n < |packet| && n < |f| && packet[..n] == f[..n]
    ensures packet[n := f[n]][..n + 1] == f[..n + 1]
  {
  }

  /** Reading one frame byte in its wire form stores that byte. */
  lemma ReadFrameByte(s: St, f: seq<byte>, how: seq<Spelling>, n: nat, rest: seq<byte>)
    requires Encodable(f, how) && HasRead(s, f, n)
    ensures Inv(Stored(s, f[n])) && Feed(s, FrameByte(f, how, n) + rest) == Feed(Stored(s, f[n]), rest)
  {
    hide ToBits, OfBits, Xor20;
    FieldOf(s, f, n);
    var wire := FrameByte(f, how, n) + rest;
    ConsumeKeepsInv(s, wire[0]);
    if |FrameByte(f, how, n)| == 1 {
      assert wire[1..] == rest;
      assert Consume(s, wire[0]) == Stored(s, f[n]);
    } else {
      XorTwice(f[n]);
      Xor20IsXor(f[n]);
      var pending := Consume(s, wire[0]);
      ConsumeKeepsInv(pending, wire[1]);
      assert wire[1..][1..] == rest;
      assert Consume(pending, wire[1]) == Stored(s, f[n]);
    }
  }

  /** Where the parser stands after n bytes of a frame. */
  lemma FieldOf(s: St, f: seq<byte>, n: nat)
    requires IsFrame(f) && HasRead(s, f, n)
    ensures UsesSpecials(s.field) == Escapable(f, n)
    ensures s.field == END_BYTE <==> n == |f| - 1
  {
    if n > 6 {
      assert s.packet[..n][6] == f[..n][6];
    }
  }

  /** After the last byte of a field the parser moves on until it waits for the next byte of the frame. */
  lemma AfterFrameByte(s: St, f: seq<byte>, n: nat, rest: seq<byte>) returns (s': St)
    requires IsFrame(f) && HasRead(s, f, n) && Inv(Stored(s, f[n]))
    ensures n + 1 < |f| ==> HasRead(s', f, n + 1) && Feed(Stored(s, f[n]), rest) == Feed(s', rest)
    ensures n + 1 == |f| ==>
              var o := Feed(Stored(s, f[n]), rest);
              o.Complete? && Fresh(o.st) && |o.packet| == MAX_PACKET_LEN && o.packet[..|f|] == f
  {
    FieldOf(s, f, n);
    StoredPrefix(s.packet, f, n);
    s' := Stored(s, f[n]);
    if n + 1 == |f| {
      FeedKeepsInv(s', rest);
      assert f[..n + 1] == f;
    } else {
      if s'.read == s'.toRead {
        SetFieldKeepsInv(s');
        s' := SetField(s', s'.field + 1);
        if s'.read == s'.toRead {
          SetFieldKeepsInv(s');
          s' := SetField(s', s'.field + 1);
        }
      }
      if n + 1 == |f| - 1 {
        assert s'.packet[..n + 1][6] == f[..n + 1][6];
      }
    }
  }

  /** A whole encoded frame yields exactly that frame ... */
  lemma {:induction false} FrameParses(s: St, f: seq<byte>, how: seq<Spelling>, n: nat)
    requires Encodable(f, how) && HasRead(s, f, n)
    ensures var o := Feed(s, Encode(f, how, n));
            o.Complete? && Fresh(o.st) && |o.packet| == MAX_PACKET_LEN && o.packet[..|f|] == f
    decreases |f| - n
  {
    var later := Encode(f, how, n + 1);
    ReadFrameByte(s, f, how, n, later);
    var s' := AfterFrameByte(s, f, n, later);
    if n + 1 < |f| {
      FrameParses(s', f, how, n + 1);
    }
  }

  /** ... and no proper prefix of it does. */
  lemma {:induction false} FramePrefixWaits(s: St, f: seq<byte>, how: seq<Spelling>, n: nat, k: nat)
    requires Encodable(f, how) && HasRead(s, f, n) && k < |Encode(f, how, n)|
    ensures Feed(s, Encode(f, how, n)[..k]).Waiting?
    decreases |f| - n
  {
    hide Feed;
    var here, later := FrameByte(f, how, n), Encode(f, how, n + 1);
    if k < |here| {
      PartialByteWaits(s, f, how, n, k);
      assert Encode(f, how, n)[..k] == here[..k];
    } else {
      var part := later[..k - |here|];
      assert Encode(f, how, n)[..k] == here + part;
      ReadFrameByte(s, f, how, n, part);
      var s' := AfterFrameByte(s, f, n, part);
      FramePrefixWaits(s', f, how, n + 1, k - |here|);
    }
  }

  lemma PartialByteWaits(s: St, f: seq<byte>, how: seq<Spelling>, n: nat, k: nat)
    requires Encodable(f, how) && HasRead(s, f, n) && k < |FrameByte(f, how, n)|
    ensures Feed(s, FrameByte(f, how, n)[..k]).Waiting?
  {
    FieldOf(s, f, n);
    if k == 1 {
      var part := FrameByte(f, how, n)[..1];
      ConsumeKeepsInv(s, part[0]);
      assert part[1..] == [];
      assert Feed(Consume(s, part[0]), []).Waiting?;
    }
  }

  // ----- whole runs -----

  datatype Log = Log(st: St, packets: seq<seq<byte>>)

  /** One call per chunk. */
  ghost function FeedAll(s: St, chunks: seq<seq<byte>>): (l: Log)
    requires WellFormed(s)
    ensures WellFormed(l.st)
    decreases |chunks|
  {
    if chunks == [] then Log(s, [])
    else
      var o := Feed(s, chunks[0]);
      var l := FeedAll(o.st, chunks[1..]);
      if o.Complete? then l.(packets := [o.packet] + l.packets) else l
  }

  lemma {:induction false} FeedAllAppend(s: St, a: seq<seq<byte>>, b: seq<seq<byte>>)
    requires WellFormed(s)
    ensures FeedAll(s, a + b) ==
            Log(FeedAll(FeedAll(s, a).st, b).st, FeedAll(s, a).packets + FeedAll(FeedAll(s, a).st, b).packets)
    decreases |a|
  {
    if a == [] {
      assert a + b == b;
    } else {
      ConcatTail(a, b);
      var o := Feed(s, a[0]);
      FeedAllAppend(o.st, a[1..], b);
      if o.Complete? {
        ConcatAssociative([o.packet], FeedAll(o.st, a[1..]).packets, FeedAll(FeedAll(s, a).st, b).packets);
      }
    }
  }

  /** Without completing a packet the parser never goes back to an earlier field. */
  lemma {:induction false} FieldsAdvance(s: St, rest: seq<byte>)
    requires Inv(s) && !Feed(s, rest).Complete?
    ensures Feed(s, rest).st.field >= s.field
    decreases |rest|, END_BYTE - s.field
  {
    if s.read == s.toRead {
      SetFieldKeepsInv(s);
      FieldsAdvance(SetField(s, s.field + 1), rest);
    } else if rest != [] {
      ConsumeKeepsInv(s, rest[0]);
      FieldsAdvance(Consume(s, rest[0]), rest[1..]);
    }
  }

  /** From the start state any input leads away from it, unless it completes a packet. */
  lemma InputMoves(s: St, b: seq<byte>)
    requires Fresh(s) && b != [] && !Feed(s, b).Complete?
    ensures Feed(s, b).st.field > START_BYTE
  {
    var t := Consume(s, b[0]);
    ConsumeKeepsInv(s, b[0]);
    SetFieldKeepsInv(t);
    FieldsAdvance(SetField(t, PACKET_TYPE), b[1..]);
  }

  lemma OneCall(s: St, a: seq<byte>)
    requires WellFormed(s)
    ensures FeedAll(s, [a]) == Log(Feed(s, a).st, if Feed(s, a).Complete? then [Feed(s, a).packet] else [])
  {
    assert [a][1..] == [];
  }

  /** Two calls do what one call with all the bytes does exactly when the first completes no packet, or was all. */
  lemma CallsMerge(s: St, a: seq<byte>, b: seq<byte>)
    requires Settled(s)
    ensures FeedAll(s, [a, b]) == FeedAll(s, [a + b]) <==> !Feed(s, a).Complete? || b == []
  {
    hide Feed, FeedAll;
    var t := Feed(s, a).st;
    FeedSplit(s, a, b);
    FeedKeepsInv(s, a);
    OneCall(s, a);
    OneCall(s, a + b);
    OneCall(t, b);
    assert [a, b] == [a] + [b];
    FeedAllAppend(s, [a], [b]);
    if Feed(s, a).Complete? {
      if b == [] {
        EmptyChunksDoNothing(t, [b]);
      } else if !Feed(t, b).Complete? {
        InputMoves(t, b);
      }
    }
  }

  lemma {:induction false} EmptyChunksDoNothing(s: St, chunks: seq<seq<byte>>)
    requires Settled(s) && Flatten(chunks) == []
    ensures FeedAll(s, chunks) == Log(s, [])
  {
    if chunks != [] {
      assert chunks[0] == [] && Flatten(chunks[1..]) == [];
      EmptyChunksDoNothing(s, chunks[1..]);
    }
  }

  /** If `wire` completes a packet and none of its proper prefixes does, its chunking does not matter. */
  lemma {:induction false} ChunkingIsInvisible(s: St, wire: seq<byte>, chunks: seq<seq<byte>>)
    requires Settled(s) && Flatten(chunks) == wire && Feed(s, wire).Complete?
    requires forall k | 0 <= k < |wire| :: Feed(s, wire[..k]).Waiting?
    ensures FeedAll(s, chunks) == Log(Feed(s, wire).st, [Feed(s, wire).packet])
    decreases |chunks|
  {
    if chunks == [] {
      assert false;
    } else {
      var c, rest := chunks[0], Flatten(chunks[1..]);
      assert wire == c + rest;
      if |c| == |wire| {
        assert c == wire && rest == [];
        FeedKeepsInv(s, wire);
        EmptyChunksDoNothing(Feed(s, wire).st, chunks[1..]);
      } else {
        assert wire[..|c|] == c;
        FeedSplit(s, c, rest);
        FeedKeepsInv(s, c);
        forall k | 0 <= k < |rest| ensures Feed(Feed(s, c).st, rest[..k]).Waiting? {
          FeedSplit(s, c, rest[..k]);
          assert wire[..|c| + k] == c + rest[..k];
        }
        ChunkingIsInvisible(Feed(s, c).st, rest, chunks[1..]);
      }
    }
  }

  /** A frame, the spelling of its bytes, and the pieces in which its wire form arrives. */
  datatype Message = Message(frame: seq<byte>, how: seq<Spelling>, chunks: seq<seq<byte>>)

  ghost predicate Sendable(m: Message) {
    Encodable(m.frame, m.how) && Flatten(m.chunks) == Encode(m.frame, m.how, 0)
  }

  function AllChunks(ms: seq<Message>): seq<seq<byte>> {
    if ms == [] then [] else ms[0].chunks + AllChunks(ms[1..])
  }

  /** Any number of frames, each in any pieces of its own, come out in order and unchanged. */
  lemma {:induction false} RoundTrip(s: St, ms: seq<Message>)
    requires Fresh(s) && forall m | m in ms :: Sendable(m)
    ensures var l := FeedAll(s, AllChunks(ms));
            && Fresh(l.st) && |l.packets| == |ms|
            && forall i | 0 <= i < |ms| ::
                 |l.packets[i]| == MAX_PACKET_LEN && |ms[i].frame| <= 265 && l.packets[i][..|ms[i].frame|] == ms[i].frame
    decreases |ms|
  {
    if ms != [] {
      assert Sendable(ms[0]) by { assert ms[0] in ms; }
      var m, wire := ms[0], Encode(ms[0].frame, ms[0].how, 0);
      assert s.packet[..0] == m.frame[..0];
      FrameParses(s, m.frame, m.how, 0);
      forall k | 0 <= k < |wire| ensures Feed(s, wire[..k]).Waiting? {
        FramePrefixWaits(s, m.frame, m.how, 0, k);
      }
      ChunkingIsInvisible(s, wire, m.chunks);
      RoundTrip(Feed(s, wire).st, ms[1..]);
      FeedAllAppend(s, m.chunks, AllChunks(ms[1..]));
    }
  }

  // ----- sensor update -----

  function Word(p: seq<byte>, at: nat): nat
    requires at + 1 < |p|
  {
    p[at] as nat + 0x100 * p[at + 1] as nat
  }

  function Updated(sensors: seq<Sensor>, p: seq<byte>): (r: seq<Sensor>)
    requires |p| == MAX_PACKET_LEN
    ensures |r| == |sensors|
  {
    if p[PACKET_SIGNATURE_OFFSET] != SENSOR_PACKET then sensors
    else
      var node := Word(p, NODE_OFFSET);
      if 0 < node <= |sensors|
      then sensors[node - 1 := Sensor(Word(p, VREF_OFFSET), Word(p, TEMPERATURE_OFFSET), Word(p, LIGHT_OFFSET))]
      else sensors
  }

  /** A packet buffer that starts with the frame; what follows is left from earlier packets. */
  ghost predicate StartsWith(p: seq<byte>, f: seq<byte>) {
    |p| == MAX_PACKET_LEN && |f| <= |p| && p[..|f|] == f
  }

  /** The update is the same whatever follows the frame in the buffer. */
  ghost predicate FromFrameAlone(sensors: seq<Sensor>, f: seq<byte>) {
    forall p, q | StartsWith(p, f) && StartsWith(q, f) :: Updated(sensors, p) == Updated(sensors, q)
  }

  /** The frame names one of n nodes; without a payload its end byte is the low byte of the node, and the rest is stale. */
  predicate Names(f: seq<byte>, n: nat)
    requires IsFrame(f)
  {
    if |f| > NODE_OFFSET + 1 then 0 < Word(f, NODE_OFFSET) <= n
    else (if f[NODE_OFFSET] == 0 then 0x100 else f[NODE_OFFSET] as nat) <= n
  }

  lemma SamePrefix(p: seq<byte>, f: seq<byte>, k: nat)
    requires StartsWith(p, f) && k < |f|
    ensures p[k] == f[k]
  {
    assert p[..|f|][k] == f[k];
  }

  /** From 14 bytes of payload on a sensor frame updates only its own node, with its bytes 18 to 23. */
  lemma LongFrameUpdates(sensors: seq<Sensor>, p: seq<byte>, f: seq<byte>)
    requires IsFrame(f) && StartsWith(p, f) && f[6] >= 14
    ensures Updated(sensors, p) ==
            var node := f[9] as nat + 256 * f[10] as nat;
            if f[4] == 11 && 0 < node <= |sensors|
            then sensors[node - 1 := Sensor(f[18] as nat + 256 * f[19] as nat,
                                            f[20] as nat + 256 * f[21] as nat,
                                            f[22] as nat + 256 * f[23] as nat)]
            else sensors
  {
    forall k | 0 <= k < |f| ensures p[k] == f[k] {
      SamePrefix(p, f, k);
    }
  }

  lemma OtherFramesUpdateNothing(sensors: seq<Sensor>, p: seq<byte>, f: seq<byte>)
    requires IsFrame(f) && StartsWith(p, f)
    requires f[PACKET_SIGNATURE_OFFSET] != SENSOR_PACKET || !Names(f, |sensors|)
    ensures Updated(sensors, p) == sensors
  {
    SamePrefix(p, f, PACKET_SIGNATURE_OFFSET);
    SamePrefix(p, f, NODE_OFFSET);
    if |f| > NODE_OFFSET + 1 {
      SamePrefix(p, f, NODE_OFFSET + 1);
    }
  }

  /** Two buffers with a short frame that names a node, which differ in a byte the update reads. */
  lemma StaleBytesMatter(sensors: seq<Sensor>, f: seq<byte>)
    requires IsFrame(f) && f[6] < 14 && f[PACKET_SIGNATURE_OFFSET] == SENSOR_PACKET && Names(f, |sensors|)
    ensures !FromFrameAlone(sensors, f)
  {
    var high: byte := if |f| > NODE_OFFSET + 1 then f[NODE_OFFSET + 1] else if f[NODE_OFFSET] == 0 then 1 else 0;
    var zeros := seq(MAX_PACKET_LEN - |f|, _ => 0 as byte);
    var p := (f + zeros)[NODE_OFFSET + 1 := high];
    var q := p[LIGHT_OFFSET + 1 := 1];
    assert p[..|f|] == f && q[..|f|] == f;
    assert StartsWith(p, f) && StartsWith(q, f);
    var node := Word(p, NODE_OFFSET);
    assert p[PACKET_SIGNATURE_OFFSET] == SENSOR_PACKET && 0 < node <= |sensors| && Word(q, NODE_OFFSET) == node;
    assert Updated(sensors, p)[node - 1].light != Updated(sensors, q)[node - 1].light;
  }

  /** Below 14 bytes of payload a sensor frame that names a node stores bytes of earlier packets, and only then. */
  lemma UpdateComesFromFrame(sensors: seq<Sensor>, f: seq<byte>)
    requires IsFrame(f)
    ensures FromFrameAlone(sensors, f) <==>
            f[6] >= 14 || f[PACKET_SIGNATURE_OFFSET] != SENSOR_PACKET || !Names(f, |sensors|)
  {
    if f[6] < 14 && f[PACKET_SIGNATURE_OFFSET] == SENSOR_PACKET && Names(f, |sensors|) {
      StaleBytesMatter(sensors, f);
    } else {
      forall p, q | StartsWith(p, f) && StartsWith(q, f) ensures Updated(sensors, p) == Updated(sensors, q) {
        if f[6] >= 14 {
          LongFrameUpdates(sensors, p, f);
          LongFrameUpdates(sensors, q, f);
        } else {
          OtherFramesUpdateNothing(sensors, p, f);
          OtherFramesUpdateNothing(sensors, q, f);
        }
      }
    }
  }

  // ----- the driver -----

  class Protocol {
    var field: int
    var bytesRead: int
    var bytesToRead: int
    var pos: int
    var nextIsSpecial: byte
    const packet: array<byte>
    const sensors: array<Sensor>

    ghost function Abs(): St
      reads this, packet
    {
      St(field, bytesRead, bytesToRead, pos, nextIsSpecial, packet[..])
    }

    ghost predicate Valid()
      reads this, packet
    {
      WellFormed(Abs())
    }

    constructor (sensors: array<Sensor>)
      ensures Valid() && Fresh(Abs()) && this.sensors == sensors && fresh(packet)
    {
      packet := new byte[MAX_PACKET_LEN](_ => 0);
      this.sensors := sensors;
      pos, nextIsSpecial, field, bytesToRead, bytesRead := 0, 0, START_BYTE, 1, 0;
    }

    method Init()
      requires packet.Length == MAX_PACKET_LEN
      modifies this
      ensures Abs() == Restarted(old(Abs())) && Fresh(Abs())
    {
      pos, nextIsSpecial := 0, 0;
      SetState(START_BYTE, 1);
    }

    method SetState(state: int, btr: int)
      modifies `field, `bytesToRead, `bytesRead
      ensures field == state && bytesToRead == btr && bytesRead == 0
    {
      field, bytesToRead, bytesRead := state, btr, 0;
    }

    method Store(b: byte)
      requires 0 <= pos < packet.Length
      modifies `pos, `bytesRead, packet
      ensures Abs() == Stored(old(Abs()), b)
    {
      packet[pos] := b;
      pos, bytesRead := pos + 1, bytesRead + 1;
    }

    /** The body of the reading loop for one input byte. */
    method ReadByte(b: byte, useSpecials: bool)
      requires 0 <= pos < packet.Length && useSpecials == UsesSpecials(field)
      modifies `pos, `bytesRead, `nextIsSpecial, packet
      ensures Abs() == Consume(old(Abs()), b)
    {
      if useSpecials {
        if nextIsSpecial != 0 {
          var c := packet[pos];
          if nextIsSpecial == LITERAL_ESCAPE {
            c := b;
          }
          if nextIsSpecial == XOR_ESCAPE {
            c := Xor20(b);
          }
          Store(c);
          nextIsSpecial := 0;
        } else if b == LITERAL_ESCAPE || b == XOR_ESCAPE {
          nextIsSpecial := b;
        } else {
          Store(b);
        }
      } else {
        Store(b);
      }
    }

    /** Reads the current field: 1 when it is complete, 0 when the data ran out, -1 when the buffer is full. */
    method ParseState(data: seq<byte>, i0: nat, useSpecials: bool) returns (r: int, i: nat)
      requires Valid() && i0 <= |data| && useSpecials == UsesSpecials(field)
      modifies `pos, `bytesRead, `nextIsSpecial, packet
      ensures Valid() && i0 <= i <= |data| && r in {-1, 0, 1}
      ensures r == 1 ==> bytesRead == bytesToRead && Feed(old(Abs()), data[i0..]) == Feed(Abs(), data[i..])
      ensures r == 0 ==> Feed(old(Abs()), data[i0..]) == Waiting(Abs())
      ensures r == -1 ==> Feed(old(Abs()), data[i0..]) == Overflow(Abs())
    {
      i := i0;
      while i < |data| && bytesRead < bytesToRead
        invariant Valid() && i0 <= i <= |data| && unchanged(`field) && unchanged(`bytesToRead)
        invariant Feed(old(Abs()), data[i0..]) == Feed(Abs(), data[i..])
        decreases |data| - i
      {
        assert data[i..][0] == data[i] && data[i..][1..] == data[i + 1..];
        if pos == MAX_PACKET_LEN {
          pos := 0;
          return -1, i;
        }
        ReadByte(data[i], useSpecials);
        i := i + 1;
      }
      r := if bytesRead == bytesToRead then 1 else 0;
      assert r == 0 ==> data[i..] == [];
    }

    /** What is known in front of the branch for `k`: the call is still to be continued, or its result stands. */
    ghost predicate Reaches(goal: Outcome, rest: seq<byte>, k: int)
      requires Valid()
      reads this, packet
    {
      if field >= k then Feed(Abs(), rest) == goal else goal in {Waiting(Abs()), Overflow(Abs())}
    }

    /** `if (state->state == k) if (parse_state(...) == 1) set_state(state, k + 1, ...)` */
    method Branch(buf: seq<byte>, i0: nat, k: int, ghost goal: Outcome) returns (i: nat)
      requires Valid() && i0 <= |buf| && START_BYTE <= k < END_BYTE && Reaches(goal, buf[i0..], k)
      modifies this, packet
      ensures Valid() && i <= |buf| && Reaches(goal, buf[i..], k + 1)
    {
      i := i0;
      if field == k {
        var r;
        r, i := ParseState(buf, i, UsesSpecials(k));
        if r == 1 {
          var length := 1;
          if k + 1 == PAYLOAD {
            length := packet[pos - 1] as int;
          } else if k + 1 == DESTINATION_ADDRESS || k + 1 == CRC {
            length := 2;
          }
          ghost var s := Abs();
          SetState(k + 1, length);
          assert Abs() == SetField(s, k + 1);
        }
      }
    }

    method UpdateSensors()
      requires packet.Length == MAX_PACKET_LEN && sensors as object != packet as object
      modifies sensors
      ensures sensors[..] == Updated(old(sensors[..]), packet[..])
    {
      if packet[PACKET_SIGNATURE_OFFSET] == SENSOR_PACKET {
        var node := Word(packet[..], NODE_OFFSET);
        if node > 0 && node <= sensors.Length {
          sensors[node - 1] :=
            Sensor(Word(packet[..], VREF_OFFSET), Word(packet[..], TEMPERATURE_OFFSET), Word(packet[..], LIGHT_OFFSET));
        }
      }
    }

    /** One call: the state follows Feed, and the sensors change exactly when a packet was completed. */
    method ReceivedBuf(buf: seq<byte>)
      requires Valid() && sensors as object != packet as object
      modifies this, packet, sensors
      ensures Valid() && Abs() == Feed(old(Abs()), buf).st
      ensures sensors[..] == match Feed(old(Abs()), buf)
                             case Complete(_, p) => Updated(old(sensors[..]), p)
                             case _ => old(sensors[..])
    {
      ghost var goal := Feed(Abs(), buf);
      assert buf[0..] == buf;
      var i := Branch(buf, 0, START_BYTE, goal);
      i := Branch(buf, i, PACKET_TYPE, goal);
      i := Branch(buf, i, DESTINATION_ADDRESS, goal);
      i := Branch(buf, i, AM_TYPE, goal);
      i := Branch(buf, i, AM_GROUP, goal);
      i := Branch(buf, i, PAYLOAD_LENGTH, goal);
      i := Branch(buf, i, PAYLOAD, goal);
      i := Branch(buf, i, CRC, goal);
      if field == END_BYTE {
        var r;
        r, i := ParseState(buf, i, false);
        if r == 1 {
          UpdateSensors();
          Init();
        }
      }
    }
  }
}
