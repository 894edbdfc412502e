/** Outbound data of the 3270 terminal: in-place doubling of IAC and chunked sending. */
module Terminal3270 {
  import opened Bytes

  const IAC: byte := 0xFF
  const IAC_EOR: byte := 0xEF
  const OUTPUT_BUFFER_SIZE := 2051
  const BOUND := (OUTPUT_BUFFER_SIZE - 3) / 2
  const TAIL := [IAC, IAC_EOR]

  // ----- specification -----

  function EscapeByte(b: byte): seq<byte> {
    if b == IAC then [IAC, IAC] else [b]
  }

  /** Every IAC doubled. */
  function Escape(s: seq<byte>): seq<byte> {
    if s == [] then [] else EscapeByte(s[0]) + Escape(s[1..])
  }

  function CountIac(s: seq<byte>): nat {
    if s == [] then 0 else (if s[0] == IAC then 1 else 0) + CountIac(s[1..])
  }

  /** The receiver: the data before the first IAC EOR, and the bytes after it; None when no such end comes. */
  function Decode(s: seq<byte>): Option<(seq<byte>, seq<byte>)> {
    if s == [] then None
    else if s[0] != IAC then
      match Decode(s[1..])
      case None => None
      case Some(r) => Some(([s[0]] + r.0, r.1))
    else if |s| < 2 then None
    else if s[1] == IAC_EOR then Some(([], s[2..]))
    else if s[1] != IAC then None
    else
      match Decode(s[2..])
      case None => None
      case Some(r) => Some(([IAC] + r.0, r.1))
  }

  lemma {:induction false} EscapeAppend(a: seq<byte>, b: seq<byte>)
    ensures Escape(a + b) == Escape(a) + Escape(b)
  {
    if a == [] {
      assert a + b == b;
    } else {
      ConcatTail(a, b);
      EscapeAppend(a[1..], b);
      ConcatAssociative(EscapeByte(a[0]), Escape(a[1..]), Escape(b));
    }
  }

  lemma {:induction false} EscapeLength(s: seq<byte>)
    ensures |Escape(s)| == |s| + CountIac(s)
    ensures |s| <= |Escape(s)| <= 2 * |s|
    ensures |Escape(s)| == 2 * |s| <==> forall i | 0 <= i < |s| :: s[i] == IAC
    ensures CountIac(s) == 0 ==> Escape(s) == s
  {
    if s != [] {
      EscapeLength(s[1..]);
      assert s == [s[0]] + s[1..];
    }
  }

  /** The bytes on the wire. */
  lemma EscapeExample()
    ensures Escape([0x41, 0xFF]) + TAIL == [0x41, 0xFF, 0xFF, 0xFF, 0xEF]
  {
    assert [0x41, 0xFF][1..] == [0xFF] && [0xFF][1..] == [];
    assert Escape([0xFF]) == [0xFF, 0xFF] + [];
  }

  /** What the receiver makes of an escaped stream followed by the end mark is the stream itself. */
  lemma {:induction false} DecodeEscape(s: seq<byte>, rest: seq<byte>)
    ensures Decode(Escape(s) + TAIL + rest) == Some((s, rest))
  {
    var wire := Escape(s) + TAIL + rest;
    if s == [] {
      assert wire == TAIL + rest && wire[2..] == rest;
    } else {
      var later := Escape(s[1..]) + TAIL + rest;
      DecodeEscape(s[1..], rest);
      assert wire == EscapeByte(s[0]) + later;
      assert wire[|EscapeByte(s[0])|..] == later;
      assert s == [s[0]] + s[1..];
    }
  }

  // ----- escaping in place -----

  lemma CountSplit(s: seq<byte>, i: nat)
    requires i < |s|
    ensures CountIac(s[..i + 1]) == CountIac(s[..i]) + (if s[i] == IAC then 1 else 0)
    ensures Escape(s[i..]) == EscapeByte(s[i]) + Escape(s[i + 1..])
  {
    EscapeAppend(s[..i], [s[i]]);
    EscapeLength(s[..i]);
    EscapeLength(s[..i + 1]);
    assert s[..i + 1] == s[..i] + [s[i]];
    assert [s[i]][1..] == [];
    assert Escape([s[i]]) == EscapeByte(s[i]);
    assert s[i..][1..] == s[i + 1..];
  }

  /** One turn of the backward loop: the escaped outv[i] joins what is already in place in outv[j + 1..end]. */
  method CopyBack(outv: array<byte>, i: nat, j: nat, ghost end: nat) returns (at: int)
    requires i < j < end <= outv.Length
    modifies outv
    ensures at == j + 1 - |EscapeByte(old(outv[i]))|
    ensures outv[at..end] == EscapeByte(old(outv[i])) + old(outv[j + 1..end])
    ensures forall k | 0 <= k < i || end <= k < outv.Length :: outv[k] == old(outv[k])
  {
    at := j;
    outv[j] := outv[i];
    if outv[i] == IAC {
      at := at - 1;
      outv[at] := IAC;
    }
  }

  method CountIacs(outv: array<byte>, outLen: nat) returns (iacNum: nat)
    requires outLen <= outv.Length
    ensures iacNum == CountIac(outv[..outLen])
  {
    iacNum := 0;
    for k := 0 to outLen
      invariant iacNum == CountIac(outv[..k])
    {
      CountSplit(outv[..outLen], k);
      assert outv[..outLen][..k] == outv[..k] && outv[..outLen][..k + 1] == outv[..k + 1];
      if outv[k] == IAC {
        iacNum := iacNum + 1;
      }
    }
  }

  lemma UntouchedPrefix(s: seq<byte>, n: nat, t: seq<byte>)
    requires n <= |s| && CountIac(s[..n]) == 0
    requires n <= |t| && t[..n] == s[..n] && t[n..] == Escape(s[n..])
    ensures t == Escape(s)
  {
    EscapeLength(s[..n]);
    EscapeAppend(s[..n], s[n..]);
    SplitAt(s, n);
    SplitAt(t, n);
  }

  /** Of s, the bytes behind position i stand escaped at the end of `now`; those up to i are still in place. */
  ghost predicate Expanded(s: seq<byte>, now: seq<byte>, i: int, j: int) {
    && -1 <= i <= j < |now| && i < |s|
    && j - i == CountIac(s[..i + 1])
    && (forall k | 0 <= k <= i :: now[k] == s[k])
    && now[j + 1..] == Escape(s[i + 1..])
  }

  lemma ExpandedStarts(s: seq<byte>, now: seq<byte>)
    requires |now| == |s| + CountIac(s) && s <= now
    ensures Expanded(s, now, |s| - 1, |now| - 1)
  {
    assert s[..|s|] == s;
  }

  lemma ExpandedAt(s: seq<byte>, now: seq<byte>, i: int, j: int)
    requires Expanded(s, now, i, j)
    ensures -1 <= i <= j < |now| && i < |s| && (0 <= i ==> now[i] == s[i])
  {
  }

  lemma ExpandedNext(s: seq<byte>, now: seq<byte>, next: seq<byte>, i: int, j: int, at: int)
    requires Expanded(s, now, i, j) && 0 <= i < j && |next| == |now|
    requires at == j + 1 - |EscapeByte(s[i])| && next[at..] == EscapeByte(s[i]) + now[j + 1..]
    requires forall k | 0 <= k < i :: next[k] == now[k]
    ensures Expanded(s, next, i - 1, at - 1)
  {
    CountSplit(s, i);
    EscapeLength(s[..i]);
  }

  lemma ExpandedEnds(s: seq<byte>, now: seq<byte>, i: int, j: int)
    requires Expanded(s, now, i, j) && (j == i || i < 0)
    ensures now == Escape(s)
  {
    assert now[..i + 1] == s[..i + 1];
    if i < 0 {
      EscapeLength(s[..0]);
      assert s[..0] == [] && j == i;
    }
    UntouchedPrefix(s, i + 1, now);
  }

  /** The backward loop; it stops as soon as the rest is already in place. */
  method ExpandBackward(outv: array<byte>, outLen: nat, newLen: nat)
    requires outLen <= newLen <= outv.Length && newLen - outLen == CountIac(outv[..outLen])
    modifies outv
    ensures outv[..newLen] == Escape(old(outv[..outLen]))
    ensures forall k | newLen <= k < outv.Length :: outv[k] == old(outv[k])
  {
    hide Escape, Expanded;
    ghost var s := outv[..outLen];
    ExpandedStarts(s, outv[..newLen]);
    var i, j := outLen - 1, newLen - 1;
    while j > i && i >= 0
      invariant Expanded(s, outv[..newLen], i, j)
      invariant forall k | newLen <= k < outv.Length :: outv[k] == old(outv[k])
    {
      ghost var now := outv[..newLen];
      ExpandedAt(s, now, i, j);
      ghost var tail := outv[j + 1..newLen];
      assert now[j + 1..] == tail;
      var at := CopyBack(outv, i, j, newLen);
      assert outv[..newLen][at..] == outv[at..newLen];
      ExpandedNext(s, now, outv[..newLen], i, j, at);
      i, j := i - 1, at - 1;
    }
    ExpandedAt(s, outv[..newLen], i, j);
    ExpandedEnds(s, outv[..newLen], i, j);
  }

  method InsertIacEscapeChar(outv: array<byte>, outLen: nat) returns (newLen: nat)
    requires outLen <= outv.Length && outLen + CountIac(outv[..outLen]) <= outv.Length
    modifies outv
    ensures newLen <= outv.Length && outv[..newLen] == Escape(old(outv[..outLen]))
    ensures forall k | newLen <= k < outv.Length :: outv[k] == old(outv[k])
  {
    EscapeLength(outv[..outLen]);
    var iacNum := CountIacs(outv, outLen);
    if iacNum == 0 {
      return outLen;
    }
    newLen := outLen + iacNum;
    ExpandBackward(outv, outLen, newLen);
  }

  // ----- sending -----

  /** The bytes that share the first chunk with the command byte. */
  function FirstPiece(payload: seq<byte>): seq<byte> {
    payload[..Min(|payload|, BOUND)]
  }

  /** The first chunk, with the end mark when it is also the last one, fits into outv. */
  predicate FirstChunkFits(cmd: byte, payload: seq<byte>) {
    |Escape([cmd] + FirstPiece(payload))| + (if |payload| <= BOUND then 2 else 0) <= OUTPUT_BUFFER_SIZE
  }

  /** The buffer is large enough for every command except IAC itself with a maximal piece of nothing but IAC. */
  lemma FirstChunkFitsExactly(cmd: byte, payload: seq<byte>)
    ensures FirstChunkFits(cmd, payload) <==>
            !(cmd == IAC && |payload| == BOUND && forall i | 0 <= i < |payload| :: payload[i] == IAC)
  {
    var piece := FirstPiece(payload);
    EscapeLength([cmd] + piece);
    EscapeLength(piece);
    EscapeAppend([cmd], piece);
    assert Escape([cmd]) == EscapeByte(cmd) by { assert [cmd][1..] == []; }
    if |payload| == BOUND {
      assert piece == payload;
    }
  }

  /** What has been sent when the command and the bytes `payload[..n]` have gone out. */
  function Sent(cmd: byte, payload: seq<byte>, n: nat): seq<byte>
    requires n <= |payload|
  {
    Escape([cmd] + payload[..n]) + (if n == |payload| then TAIL else [])
  }

  /** A complete transmission decodes to the command followed by the whole data stream. */
  lemma SentDecodes(cmd: byte, payload: seq<byte>)
    ensures Decode(Sent(cmd, payload, |payload|)) == Some(([cmd] + payload, []))
  {
    DecodeEscape([cmd] + payload, []);
    assert payload[..|payload|] == payload;
    assert Sent(cmd, payload, |payload|) == Escape([cmd] + payload) + TAIL + [];
  }

  lemma SentGrows(cmd: byte, payload: seq<byte>, n: nat, len: nat)
    requires n + len <= |payload|
    ensures Escape([cmd] + payload[..n]) + Escape(payload[n..n + len]) == Escape([cmd] + payload[..n + len])
  {
    EscapeAppend([cmd] + payload[..n], payload[n..n + len]);
    assert payload[..n] + payload[n..n + len] == payload[..n + len] by { SplitAt(payload[..n + len], n); }
    ConcatAssociative([cmd], payload[..n], payload[n..n + len]);
  }

  /** What BuildChunk makes of the bytes in front of it. */
  function Chunk(raw: seq<byte>, last: bool): seq<byte> {
    Escape(raw) + (if last then TAIL else [])
  }

  lemma ChunkLength(raw: seq<byte>, last: bool)
    ensures |Chunk(raw, last)| == |Escape(raw)| + (if last then 2 else 0) <= 2 * |raw| + 2
  {
    EscapeLength(raw);
  }

  lemma ChunkExtends(cmd: byte, payload: seq<byte>, n: nat, len: nat)
    requires n + len <= |payload| && n < |payload|
    ensures Sent(cmd, payload, n) + Chunk(payload[n..n + len], n + len == |payload|) == Sent(cmd, payload, n + len)
  {
    SentGrows(cmd, payload, n, len);
    ConcatAssociative(Escape([cmd] + payload[..n]), Escape(payload[n..n + len]),
                      if n + len == |payload| then TAIL else []);
  }

  class Terminal {
    const outv: array<byte>
    var handshakeDone: bool
    var connected: bool
    var stream: seq<byte>    // the channel data stream: all its bytes ...
    var at: nat              // ... and how many were consumed
    var sent: seq<seq<byte>> // chunks handed to the character backend

    ghost predicate Valid()
      reads this
    {
      outv.Length == OUTPUT_BUFFER_SIZE && at <= |stream|
    }

    constructor (stream: seq<byte>, handshakeDone: bool, connected: bool)
      ensures Valid() && fresh(outv) && this.stream == stream && at == 0 && sent == []
      ensures this.handshakeDone == handshakeDone && this.connected == connected
    {
      outv := new byte[OUTPUT_BUFFER_SIZE](_ => 0);
      this.stream, at, sent := stream, 0, [];
      this.handshakeDone, this.connected := handshakeDone, connected;
    }

    method ReadBuf(pos: nat, len: nat)
      requires Valid() && at + len <= |stream| && pos + len <= outv.Length
      modifies `at, outv
      ensures Valid() && at == old(at) + len
      ensures outv[..pos + len] == old(outv[..pos]) + stream[old(at)..at]
    {
      forall k | 0 <= k < len {
        outv[pos + k] := stream[at + k];
      }
      at := at + len;
    }

    method AppendTail(outLen: nat) returns (newLen: nat)
      requires outLen + 2 <= outv.Length
      modifies outv
      ensures newLen == outLen + 2 && outv[..newLen] == old(outv[..outLen]) + TAIL
    {
      outv[outLen], outv[outLen + 1] := IAC, IAC_EOR;
      newLen := outLen + 2;
    }

    /** The do-while body up to the write: `pos` bytes (the command, or none) and `len` more from the stream. */
    method BuildChunk(pos: nat, len: nat) returns (outLen: nat)
      requires Valid() && at + len <= |stream| && pos + len <= outv.Length
      requires |Chunk(outv[..pos] + stream[at..at + len], at + len == |stream|)| <= outv.Length
      modifies `at, outv
      ensures Valid() && at == old(at) + len && outLen <= outv.Length
      ensures outv[..outLen] == Chunk(old(outv[..pos]) + stream[old(at)..at], at == |stream|)
    {
      EscapeLength(outv[..pos] + stream[at..at + len]);
      ReadBuf(pos, len);
      var count := |stream| - at;
      outLen := InsertIacEscapeChar(outv, pos + len);
      if count == 0 {
        outLen := AppendTail(outLen);
      }
    }

    /** The command byte already lies in front of the first piece. */
    method FirstChunk(cmd: byte, len: nat) returns (chunk: seq<byte>)
      requires Valid() && len == Min(|stream| - at, BOUND) && outv[0] == cmd && FirstChunkFits(cmd, stream[at..])
      modifies `at, outv
      ensures Valid() && at == old(at) + len && |chunk| <= OUTPUT_BUFFER_SIZE
      ensures chunk == Sent(cmd, stream[old(at)..], len)
    {
      ghost var raw := [cmd] + stream[at..][..len];
      assert outv[..1] == [cmd] && stream[at..][..len] == stream[at..at + len];
      assert outv[..1] + stream[at..at + len] == raw;
      ChunkLength(raw, at + len == |stream|);
      var outLen := BuildChunk(1, len);
      chunk := outv[..outLen];
    }

    method LaterChunk(ghost cmd: byte, len: nat, ghost at0: nat) returns (chunk: seq<byte>)
      requires Valid() && at0 <= at && 0 < len == Min(|stream| - at, BOUND)
      modifies `at, outv
      ensures Valid() && at == old(at) + len && |chunk| <= OUTPUT_BUFFER_SIZE
      ensures Sent(cmd, stream[at0..], old(at) - at0) + chunk == Sent(cmd, stream[at0..], at - at0)
    {
      hide Escape;
      ghost var n := at - at0;
      assert stream[at..at + len] == stream[at0..][n..n + len];
      assert outv[..0] + stream[at..at + len] == stream[at..at + len];
      ChunkLength(stream[at..at + len], at + len == |stream|);
      ChunkExtends(cmd, stream[at0..], n, len);
      var outLen := BuildChunk(0, len);
      chunk := outv[..outLen];
    }

    /** The do-while loop: builds and writes chunks until the stream is empty or a write fails. */
    method Transmit(cmd: byte, writeAll: nat -> int) returns (chunks: seq<seq<byte>>, retval: int)
      requires Valid() && FirstChunkFits(cmd, stream[at..])
      modifies `at, outv
      ensures Valid() && old(at) <= at && (at == |stream| || retval < 0)
      ensures chunks != [] && retval == writeAll(|chunks| - 1) && forall k | 0 <= k < |chunks| - 1 :: writeAll(k) >= 0
      ensures Flatten(chunks) == Sent(cmd, stream[old(at)..], at - old(at))
      ensures forall k | 0 <= k < |chunks| :: |chunks[k]| <= OUTPUT_BUFFER_SIZE
    {
      ghost var at0 := at;
      outv[0] := cmd;
      var len := Min(|stream| - at, BOUND);
      var chunk := FirstChunk(cmd, len);
      retval, chunks := writeAll(0), [chunk];
      FlattenSnoc([], chunk);
      len := Min(|stream| - at, BOUND);
      while len != 0 && retval >= 0
        invariant Valid() && at0 <= at && len == Min(|stream| - at, BOUND)
        invariant chunks != [] && retval == writeAll(|chunks| - 1)
        invariant forall k | 0 <= k < |chunks| - 1 :: writeAll(k) >= 0
        invariant Flatten(chunks) == Sent(cmd, stream[at0..], at - at0)
        invariant forall k | 0 <= k < |chunks| :: |chunks[k]| <= OUTPUT_BUFFER_SIZE
        decreases |stream| - at
      {
        chunk := LaterChunk(cmd, len, at0);
        FlattenSnoc(chunks, chunk);
        retval, chunks := writeAll(|chunks|), chunks + [chunk];
        len := Min(|stream| - at, BOUND);
      }
    }

    /**
     * `writeAll(n)` is what the backend answers to the n-th chunk of this call. Refused before the handshake
     * unless outv still holds a negotiation option; without a backend everything counts as consumed. `overflow` is
     * whether the end mark of the first chunk is written beyond outv, after which nothing is promised: the source does
     * not look, and the model stops there.
     */
    method WritePayload(cmd: byte, writeAll: nat -> int) returns (r: int, overflow: bool)
      requires Valid()
      modifies `at, `sent, outv
      ensures Valid()
      ensures var ready := old(handshakeDone) || (old(outv[0]) == IAC && old(outv[1]) != IAC);
              overflow <==>
                && ready && connected && cmd == IAC && |stream| - old(at) == BOUND
                && forall i | old(at) <= i < |stream| :: stream[i] == IAC
      ensures var ready := old(handshakeDone) || (old(outv[0]) == IAC && old(outv[1]) != IAC);
              overflow ||
              if ready && connected then
                && old(at) <= at && |old(sent)| < |sent| && sent[..|old(sent)|] == old(sent)
                && Flatten(sent[|old(sent)|..]) == Sent(cmd, stream[old(at)..], at - old(at))
                && (forall k | |old(sent)| <= k < |sent| :: |sent[k]| <= OUTPUT_BUFFER_SIZE)
                && (forall k | 0 <= k < |sent| - |old(sent)| - 1 :: writeAll(k) >= 0)
                && var last := writeAll(|sent| - |old(sent)| - 1);
                   && (at == |stream| || last < 0)
                   && r == (if last <= 0 then 0 else |stream|)
              else
                sent == old(sent) && at == old(at) && r == if ready then |stream| - at else 0
    {
      var count := |stream| - at;
      overflow := false;
      if !handshakeDone {
        if !(outv[0] == IAC && outv[1] != IAC) {
          return 0, overflow;
        }
      }
      if !connected {
        return count, overflow;
      }
      FirstChunkFitsExactly(cmd, stream[at..]);
      assert forall i | at <= i < |stream| :: stream[i] == stream[at..][i - at];
      if !FirstChunkFits(cmd, stream[at..]) {
        return 0, true;
      }
      var chunks, retval := Transmit(cmd, writeAll);
      ghost var before := sent;
      sent := sent + chunks;
      assert sent[|before|..] == chunks;
      r := if retval <= 0 then 0 else |stream|;
    }
  }
}
