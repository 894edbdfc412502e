/** TLS records (section 6.2.3.2 of RFC 5246): MAC, padding and block cipher, in place. */
module TlsRecord {
  import opened Arithmetic
  import opened AuthLength
  import opened Bytes
  import opened CryptoRun

  const AALG_MAX_RESULT_LEN := 64
  const EBADMSG := -74

  /**
   * What a request is processed with; `digest` maps all hashed bytes to the MAC. `stack` is what the 64 bytes of the
   * hash output, and the bytes behind them, hold before the MAC is written there.
   */
  datatype Suite = Suite(cipher: Cipher, cipherInit: bool, hashInit: bool, digest: seq<byte> -> seq<byte>, digestLen: nat,
                         tagLen: nat, stack: seq<byte>)

  datatype Opened = Ok(text: seq<byte>) | BadMessage | Invalid

  /** The cipher obeys its laws, a pad byte can hold the pad size, and a digest fits into the hash output. */
  ghost predicate WellFormed(s: Suite) {
    && (s.cipherInit ==>
          Streaming(s.cipher.encrypt, s.cipher.blocksize) && Streaming(s.cipher.decrypt, s.cipher.blocksize)
          && s.cipher.blocksize <= 256)
    && s.digestLen <= AALG_MAX_RESULT_LEN && |s.stack| >= Max(AALG_MAX_RESULT_LEN, s.tagLen)
    && forall x :: |s.digest(x)| == s.digestLen
  }

  predicate Pads(s: Suite) { s.cipherInit && s.cipher.blocksize > 1 }

  // ----- specification -----

  function PadSize(len: nat, bs: nat): (n: nat)
    requires bs > 0
    ensures 1 <= n <= bs
  {
    bs - len % bs
  }

  /** n bytes that each hold n - 1. */
  function Padding(n: nat): (p: seq<byte>)
    requires 1 <= n <= 256
    ensures |p| == n && forall i | 0 <= i < n :: p[i] == (n - 1) as byte
  {
    seq(n, _ => (n - 1) as byte)
  }

  /** The hash output after the MAC has been written to it. */
  ghost function HashOutput(s: Suite, hashed: seq<byte>): (h: seq<byte>)
    requires WellFormed(s)
    ensures |h| == |s.stack|
  {
    s.digest(hashed) + s.stack[s.digestLen..]
  }

  /** As many bytes of it as the tag has. */
  ghost function Tag(s: Suite, auth: seq<byte>, text: seq<byte>): (t: seq<byte>)
    requires WellFormed(s)
    ensures |t| == s.tagLen
  {
    HashOutput(s, auth + text)[..s.tagLen]
  }

  /** Two requests of one session that find these tag bytes behind the digest equal. */
  predicate SameRest(a: seq<byte>, b: seq<byte>, digestLen: nat, tagLen: nat)
    requires tagLen <= |a| && tagLen <= |b|
  {
    tagLen <= digestLen || a[digestLen..tagLen] == b[digestLen..tagLen]
  }

  /** The tag is a part of the digest, or shows what the hash output held before. */
  lemma TagShowsStack(s: Suite, stack: seq<byte>, auth: seq<byte>, text: seq<byte>)
    requires WellFormed(s) && |stack| == |s.stack|
    ensures Tag(s, auth, text) == Tag(s.(stack := stack), auth, text) <==> SameRest(s.stack, stack, s.digestLen, s.tagLen)
    ensures s.tagLen <= s.digestLen ==> Tag(s, auth, text) == s.digest(auth + text)[..s.tagLen]
  {
    var d, n, m := s.digest(auth + text), s.digestLen, s.tagLen;
    if m > n {
      assert Tag(s, auth, text) == d + s.stack[n..m];
      assert Tag(s.(stack := stack), auth, text) == d + stack[n..m];
      assert (d + s.stack[n..m])[n..] == s.stack[n..m] && (d + stack[n..m])[n..] == stack[n..m];
    }
  }

  /** The record before it is ciphered. */
  ghost function Plain(s: Suite, auth: seq<byte>, text: seq<byte>): seq<byte>
    requires WellFormed(s)
  {
    var body := text + (if s.hashInit then Tag(s, auth, text) else []);
    if Pads(s) then body + Padding(PadSize(|body|, s.cipher.blocksize)) else body
  }

  ghost function Sealed(s: Suite, iv: seq<byte>, auth: seq<byte>, text: seq<byte>): seq<byte>
    requires WellFormed(s)
  {
    if s.cipherInit then s.cipher.encrypt(iv, Plain(s, auth, text)).0 else Plain(s, auth, text)
  }

  /** Size of the pad, with its length byte, if it is uniform and not longer than the record. */
  function VerifiedPad(plain: seq<byte>): (r: Option<nat>)
    requires plain != []
    ensures r.Some? ==> 1 <= r.value <= |plain|
  {
    var pad := plain[|plain| - 1] as nat;
    if pad + 1 > |plain| then None
    else if forall i | |plain| - pad - 1 <= i < |plain| - 1 :: plain[i] == plain[|plain| - 1] then Some(pad + 1)
    else None
  }

  /** MAC check behind the pad check; a failed pad only shows in the result when there is a MAC. */
  ghost function CheckMac(s: Suite, auth: seq<byte>, body: seq<byte>, padFailed: bool): Opened
    requires WellFormed(s)
  {
    if !s.hashInit then Ok(body)
    else if s.tagLen > AALG_MAX_RESULT_LEN || s.tagLen > |body| then Invalid
    else
      var text := body[..|body| - s.tagLen];
      if body[|body| - s.tagLen..] != Tag(s, auth, text) || padFailed then BadMessage else Ok(text)
  }

  /** Decryption of a record that is not empty; the block cipher refuses partial blocks. */
  ghost function Open(s: Suite, iv: seq<byte>, auth: seq<byte>, data: seq<byte>): Opened
    requires WellFormed(s) && data != []
  {
    if s.cipherInit && |data| % s.cipher.blocksize != 0 then Invalid
    else
      var plain := if s.cipherInit then s.cipher.decrypt(iv, data).0 else data;
      if !Pads(s) then CheckMac(s, auth, plain, false)
      else
        match VerifiedPad(plain)
        case None => CheckMac(s, auth, plain, true)
        case Some(n) => CheckMac(s, auth, plain[..|plain| - n], false)
  }

  // ----- padding -----

  lemma PaddedLength(len: nat, bs: nat)
    requires bs > 0
    ensures (len + PadSize(len, bs)) % bs == 0
  {
    DivMod(len, bs);
    assert len + PadSize(len, bs) == bs * (len / bs) + bs == bs * (len / bs + 1);
    MultipleMod(len / bs + 1, bs);
  }

  /** A verified pad is exactly a padding of its size, and every padding verifies. */
  lemma PadIsPadding(plain: seq<byte>, n: nat)
    requires plain != [] && 1 <= n
    ensures VerifiedPad(plain) == Some(n) <==>
            n <= 256 && n <= |plain| && plain[|plain| - n..] == Padding(n)
  {
    var last := plain[|plain| - 1];
    if VerifiedPad(plain) == Some(n) {
      forall i | 0 <= i < n ensures plain[|plain| - n..][i] == Padding(n)[i] {
        assert plain[|plain| - n..][i] == plain[|plain| - n + i];
      }
    }
    if n <= 256 && n <= |plain| && plain[|plain| - n..] == Padding(n) {
      forall i | |plain| - n <= i < |plain| ensures plain[i] == (n - 1) as byte {
        assert plain[i] == plain[|plain| - n..][i - (|plain| - n)];
      }
    }
  }

  // ----- the record as a whole -----

  lemma PlainLength(s: Suite, auth: seq<byte>, text: seq<byte>)
    requires WellFormed(s) && s.cipherInit
    ensures |Plain(s, auth, text)| % s.cipher.blocksize == 0
    ensures s.hashInit ==>
              |Plain(s, auth, text)| ==
              |text| + s.tagLen + if Pads(s) then PadSize(|text| + s.tagLen, s.cipher.blocksize) else 0
  {
    var body := text + (if s.hashInit then Tag(s, auth, text) else []);
    if Pads(s) {
      PaddedLength(|body|, s.cipher.blocksize);
    }
  }

  /** The announced length of a TLS record with x bytes of text and tag. */
  lemma AnnouncedLength(len: nat, tagLen: nat, bs: nat)
    requires bs > 0
    ensures var (x, n) := (len + tagLen, DstLen(true, true, len, tagLen, bs));
      n == x + PadSize(x, bs) <==> x + PadSize(x, bs) < TWO31
    ensures DstLen(true, true, len, tagLen, 1) != len + tagLen
  {
  }

  /**
   * The encrypted length is the announced one exactly for block ciphers, and only if it is an int; a stream cipher leaves
   * one byte unused.
   */
  lemma LengthAsAnnounced(s: Suite, iv: seq<byte>, auth: seq<byte>, text: seq<byte>)
    requires WellFormed(s) && s.cipherInit && s.hashInit
    ensures var x, bs := |text| + s.tagLen, s.cipher.blocksize;
      && (|Sealed(s, iv, auth, text)| == DstLen(true, true, |text|, s.tagLen, bs) <==>
          bs > 1 && x + PadSize(x, bs) < TWO31)
      && (x + PadSize(x, bs) < TWO31 ==> |Sealed(s, iv, auth, text)| <= DstLen(true, true, |text|, s.tagLen, bs))
  {
    PlainLength(s, auth, text);
    AnnouncedLength(|text|, s.tagLen, s.cipher.blocksize);
  }

  /** A tag of 2^32 - 16 bytes behind 32 bytes of text: 32 bytes are announced for a record of 2^32 + 32 bytes. */
  lemma WrappedLengthExample(s: Suite, iv: seq<byte>, auth: seq<byte>, text: seq<byte>)
    requires WellFormed(s) && s.cipherInit && s.hashInit
    requires s.cipher.blocksize == 16 && |text| == 32 && s.tagLen == TWO32 - 16
    ensures DstLen(true, true, |text|, s.tagLen, 16) == 32 && |Sealed(s, iv, auth, text)| == TWO32 + 32
  {
    assert DstLen(true, true, 32, TWO32 - 16, 16) == 32;
    assert PadSize(TWO32 + 16, 16) == 16;
    hide Plain, DstLen, PadSize;
    PlainLength(s, auth, text);
  }

  lemma MacAccepts(s: Suite, auth: seq<byte>, text: seq<byte>)
    requires WellFormed(s)
    ensures CheckMac(s, auth, text + (if s.hashInit then Tag(s, auth, text) else []), false) ==
            if s.hashInit && s.tagLen > AALG_MAX_RESULT_LEN then Invalid else Ok(text)
  {
    var body := text + (if s.hashInit then Tag(s, auth, text) else []);
    if s.hashInit {
      assert body[..|body| - s.tagLen] == text;
    }
  }

  /** What the MAC check accepts is a text followed by its tag, behind a pad that verified. */
  lemma MacAcceptsOnly(s: Suite, auth: seq<byte>, body: seq<byte>, padFailed: bool, text: seq<byte>)
    requires WellFormed(s) && s.hashInit
    ensures CheckMac(s, auth, body, padFailed) == Ok(text) <==>
            s.tagLen <= AALG_MAX_RESULT_LEN && !padFailed && body == text + Tag(s, auth, text)
  {
    MacAccepts(s, auth, text);
    if CheckMac(s, auth, body, padFailed) == Ok(text) {
      SplitAt(body, |body| - s.tagLen);
    }
  }

  /** Opening what was sealed is the MAC check of the text and its tag. */
  lemma OpenSealed(s: Suite, stack: seq<byte>, iv: seq<byte>, auth: seq<byte>, text: seq<byte>)
    requires WellFormed(s) && |stack| == |s.stack|
    requires (s.cipherInit ==> Inverse(s.cipher)) && Sealed(s, iv, auth, text) != []
    ensures Open(s.(stack := stack), iv, auth, Sealed(s, iv, auth, text)) ==
            CheckMac(s.(stack := stack), auth, text + (if s.hashInit then Tag(s, auth, text) else []), false)
  {
    var body := text + (if s.hashInit then Tag(s, auth, text) else []);
    var plain := Plain(s, auth, text);
    if s.cipherInit {
      PlainLength(s, auth, text);
      assert |Sealed(s, iv, auth, text)| == |plain|;
      assert s.cipher.decrypt(iv, Sealed(s, iv, auth, text)).0 == plain;
    }
    if Pads(s) {
      var n := PadSize(|body|, s.cipher.blocksize);
      assert plain[|plain| - n..] == Padding(n) && plain[..|plain| - n] == body;
      PadIsPadding(plain, n);
    }
  }

  /**
   * Decryption undoes encryption, for every text, with and without a MAC, a cipher and a padding, exactly when the tag
   * is part of the digest or both requests find the same bytes behind it in a hash output that it does not exceed.
   */
  lemma RoundTrip(s: Suite, stack: seq<byte>, iv: seq<byte>, auth: seq<byte>, text: seq<byte>)
    requires WellFormed(s) && |stack| == |s.stack|
    requires (s.cipherInit ==> Inverse(s.cipher)) && Sealed(s, iv, auth, text) != []
    ensures Open(s.(stack := stack), iv, auth, Sealed(s, iv, auth, text)) == Ok(text) <==>
            !s.hashInit || (s.tagLen <= AALG_MAX_RESULT_LEN && SameRest(s.stack, stack, s.digestLen, s.tagLen))
  {
    var t := s.(stack := stack);
    OpenSealed(s, stack, iv, auth, text);
    if s.hashInit {
      TagShowsStack(s, stack, auth, text);
      MacAcceptsOnly(t, auth, text + Tag(s, auth, text), false, text);
      assert (text + Tag(s, auth, text))[|text|..] == Tag(s, auth, text);
      assert (text + Tag(t, auth, text))[|text|..] == Tag(t, auth, text);
    }
  }

  /** The deciphered bytes are a text, its MAC and a uniform padding of n bytes. */
  ghost predicate IsRecord(s: Suite, auth: seq<byte>, plain: seq<byte>, text: seq<byte>, n: nat)
    requires WellFormed(s) && 1 <= n <= 256
  {
    plain == text + Tag(s, auth, text) + Padding(n)
  }

  /** With a MAC and a block cipher, exactly the well-formed records with a matching MAC are accepted. */
  lemma OpenAcceptsExactly(s: Suite, iv: seq<byte>, auth: seq<byte>, data: seq<byte>, text: seq<byte>)
    requires WellFormed(s) && s.hashInit && Pads(s) && data != [] && |data| % s.cipher.blocksize == 0
    ensures Open(s, iv, auth, data) == Ok(text) <==>
            && s.tagLen <= AALG_MAX_RESULT_LEN
            && exists n | 1 <= n <= 256 :: IsRecord(s, auth, s.cipher.decrypt(iv, data).0, text, n)
  {
    var plain := s.cipher.decrypt(iv, data).0;
    match VerifiedPad(plain)
    case None =>
      MacAcceptsOnly(s, auth, plain, true, text);
      forall n | 1 <= n <= 256 ensures !IsRecord(s, auth, plain, text, n) {
        PadIsPadding(plain, n);
        NoRecordWithoutPad(s, auth, plain, text, n);
      }
    case Some(m) =>
      var body := plain[..|plain| - m];
      PadIsPadding(plain, m);
      MacAcceptsOnly(s, auth, body, false, text);
      SplitAt(plain, |plain| - m);
      if Open(s, iv, auth, data) == Ok(text) {
        assert IsRecord(s, auth, plain, text, m);
      }
      if n :| 1 <= n <= 256 && IsRecord(s, auth, plain, text, n) {
        NoRecordWithoutPad(s, auth, plain, text, n);
        PadIsPadding(plain, n);
      }
  }

  lemma NoRecordWithoutPad(s: Suite, auth: seq<byte>, plain: seq<byte>, text: seq<byte>, n: nat)
    requires WellFormed(s) && 1 <= n <= 256 && plain != []
    ensures IsRecord(s, auth, plain, text, n) ==>
              VerifiedPad(plain) == Some(n) && plain[..|plain| - n] == text + Tag(s, auth, text)
  {
    if IsRecord(s, auth, plain, text, n) {
      assert plain[|plain| - n..] == Padding(n);
      PadIsPadding(plain, n);
    }
  }

  /** A text with any tag that is not its own is a bad message, not an invalid request, and so is one behind a bad pad. */
  lemma WrongTagIsBadMessage(s: Suite, auth: seq<byte>, text: seq<byte>, tag: seq<byte>, padFailed: bool)
    requires WellFormed(s) && s.hashInit && |tag| == s.tagLen <= AALG_MAX_RESULT_LEN
    ensures CheckMac(s, auth, text + tag, padFailed) ==
            if tag == Tag(s, auth, text) && !padFailed then Ok(text) else BadMessage
  {
    assert (text + tag)[..|text + tag| - s.tagLen] == text && (text + tag)[|text + tag| - s.tagLen..] == tag;
  }

  /** What is left of the deciphered bytes when a uniform padding is taken off; without one, all of them. */
  function Unpadded(plain: seq<byte>): nat
    requires plain != []
  {
    match VerifiedPad(plain) case Some(n) => |plain| - n case None => |plain|
  }

  /**
   * The two refusals. A request is invalid when its tag is longer than any digest or than what the padding leaves; every
   * other record that is not some text with its MAC and a uniform padding is a bad message.
   */
  lemma RefusalsExactly(s: Suite, iv: seq<byte>, auth: seq<byte>, data: seq<byte>)
    requires WellFormed(s) && s.hashInit && Pads(s) && data != []
    ensures var plain := s.cipher.decrypt(iv, data).0;
      && (Open(s, iv, auth, data) == Invalid <==>
          |data| % s.cipher.blocksize != 0 || s.tagLen > AALG_MAX_RESULT_LEN || s.tagLen > Unpadded(plain))
      && (Open(s, iv, auth, data) == BadMessage <==>
          && |data| % s.cipher.blocksize == 0 && s.tagLen <= AALG_MAX_RESULT_LEN && s.tagLen <= Unpadded(plain)
          && forall text, n | 1 <= n <= 256 :: !IsRecord(s, auth, plain, text, n))
  {
    if |data| % s.cipher.blocksize == 0 {
      var plain, r := s.cipher.decrypt(iv, data).0, Open(s, iv, auth, data);
      if r.Ok? {
        OpenAcceptsExactly(s, iv, auth, data, r.text);
      } else if s.tagLen <= AALG_MAX_RESULT_LEN {
        forall text, n | 1 <= n <= 256 ensures !IsRecord(s, auth, plain, text, n) {
          OpenAcceptsExactly(s, iv, auth, data, text);
        }
      }
    }
  }

  /** A tag longer than any digest is refused, whatever the record holds. */
  lemma LongTagRefused(s: Suite, iv: seq<byte>, auth: seq<byte>, data: seq<byte>)
    requires WellFormed(s) && s.hashInit && s.tagLen > AALG_MAX_RESULT_LEN && data != []
    ensures Open(s, iv, auth, data) == Invalid
  {
  }

  /** Without a MAC a bad padding goes unnoticed: the record is accepted with its padding. */
  lemma PadIgnoredWithoutMac(s: Suite, iv: seq<byte>, auth: seq<byte>, data: seq<byte>)
    requires WellFormed(s) && !s.hashInit && Pads(s) && data != [] && |data| % s.cipher.blocksize == 0
    ensures VerifiedPad(s.cipher.decrypt(iv, data).0) == None ==>
              Open(s, iv, auth, data) == Ok(s.cipher.decrypt(iv, data).0)
  {
  }

  // ----- the driver, working in the destination buffer -----

  method PadRecord(dst: array<byte>, len: nat, bs: nat) returns (padSize: nat)
    requires 0 < bs <= 256 && len + PadSize(len, bs) <= dst.Length
    modifies dst
    ensures padSize == PadSize(len, bs) && dst[..len + padSize] == old(dst[..len]) + Padding(padSize)
  {
    padSize := bs - len % bs;
    forall k | len <= k < len + padSize {
      dst[k] := (padSize - 1) as byte;
    }
    assert dst[len..len + padSize] == Padding(padSize);
  }

  method VerifyRecordPad(dst: array<byte>, len: nat) returns (r: int)
    requires 0 < len <= dst.Length
    ensures match VerifiedPad(dst[..len]) case None => r == EBADMSG case Some(n) => r == n
  {
    var pad := dst[len - 1];
    if pad as nat + 1 > len {
      return EBADMSG;
    }
    var start := len - pad as nat - 1;
    for i := 0 to pad as nat
      invariant forall k | start <= k < start + i :: dst[k] == pad
    {
      if dst[start + i] != pad {
        assert dst[..len][start + i] != dst[..len][len - 1];
        return EBADMSG;
      }
    }
    return pad as nat + 1;
  }

  /**
   * The encrypting half: appends tag and padding behind the text, then ciphers all of it in place. The tag length is
   * not checked: `overread` is whether the tag contains bytes from behind the hash output.
   */
  method AuthAndEncrypt(s: Suite, iv: seq<byte>, auth: seq<byte>, dst: array<byte>, len0: nat)
    returns (len: nat, overread: bool)
    requires WellFormed(s) && len0 <= dst.Length && |Plain(s, auth, dst[..len0])| <= dst.Length
    modifies dst
    ensures len <= dst.Length && dst[..len] == Sealed(s, iv, auth, old(dst[..len0]))
    ensures overread <==> s.hashInit && s.tagLen > AALG_MAX_RESULT_LEN
  {
    ghost var text := dst[..len0];
    len, overread := len0, false;
    if s.hashInit {
      var hash := s.digest(auth + dst[..len]) + s.stack[s.digestLen..];
      overread := s.tagLen > AALG_MAX_RESULT_LEN;
      forall k | 0 <= k < s.tagLen {
        dst[len + k] := hash[k];
      }
      len := len + s.tagLen;
      assert dst[..len] == text + Tag(s, auth, text);
    }
    assert dst[..len] == text + (if s.hashInit then Tag(s, auth, text) else []);
    if s.cipherInit {
      if s.cipher.blocksize > 1 {
        var n := PadRecord(dst, len, s.cipher.blocksize);
        len := len + n;
      }
      PlainLength(s, auth, text);
      CipherInPlace(s.cipher.encrypt, s.cipher.blocksize, iv, dst, len);
    }
  }

  method CipherInPlace(f: Mode, bs: nat, iv: seq<byte>, dst: array<byte>, len: nat)
    requires Streaming(f, bs) && len <= dst.Length && len % bs == 0
    modifies dst
    ensures dst[..len] == f(iv, old(dst[..len])).0
    ensures forall k | len <= k < dst.Length :: dst[k] == old(dst[k])
  {
    var out := f(iv, dst[..len]).0;
    forall k | 0 <= k < len {
      dst[k] := out[k];
    }
  }

  /** Takes the tag off the end and compares it. */
  method StripTag(s: Suite, auth: seq<byte>, dst: array<byte>, len0: nat, fail: bool) returns (ret: int, len: nat)
    requires WellFormed(s) && len0 <= dst.Length
    ensures len <= len0
    ensures match CheckMac(s, auth, dst[..len0], fail)
            case Ok(text) => ret == 0 && dst[..len] == text
            case BadMessage => ret == EBADMSG
            case Invalid => ret == EINVAL
  {
    len := len0;
    ghost var body := dst[..len];
    if s.hashInit {
      if s.tagLen > AALG_MAX_RESULT_LEN || s.tagLen > len {
        return EINVAL, len;
      }
      var vhash := dst[len - s.tagLen..len];
      len := len - s.tagLen;
      var hash := s.digest(auth + dst[..len]) + s.stack[s.digestLen..];
      assert body[..len] == dst[..len] && body[len..] == vhash;
      if vhash != hash[..s.tagLen] || fail {
        return EBADMSG, len;
      }
    }
    ret := 0;
  }

  /** The decrypting half; the new length only counts when the record is accepted. */
  method DecryptAndCheck(s: Suite, iv: seq<byte>, auth: seq<byte>, dst: array<byte>, len0: nat) returns (ret: int, len: nat)
    requires WellFormed(s) && 0 < len0 <= dst.Length
    modifies dst
    ensures len <= dst.Length
    ensures match Open(s, iv, auth, old(dst[..len0]))
            case Ok(text) => ret == 0 && dst[..len] == text
            case BadMessage => ret == EBADMSG
            case Invalid => ret == EINVAL
  {
    hide CheckMac, VerifiedPad;
    len := len0;
    var fail := false;
    if s.cipherInit {
      if len % s.cipher.blocksize != 0 {
        return EINVAL, len;
      }
      CipherInPlace(s.cipher.decrypt, s.cipher.blocksize, iv, dst, len);
      if s.cipher.blocksize > 1 {
        var n := VerifyRecordPad(dst, len);
        if n < 0 {
          fail := true;
        } else {
          assert dst[..len][..len - n] == dst[..len - n];
          len := len - n;
        }
      }
    }
    ret, len := StripTag(s, auth, dst, len, fail);
  }
}
