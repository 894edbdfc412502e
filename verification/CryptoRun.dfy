/** Hashing and ciphering of user buffers: page by page through a bounce buffer, or in one go. */
module CryptoRun {
  import opened Arithmetic
  import opened Bytes

  const PAGE_SIZE := 0x1000

  /** One direction of a cipher: IV and data to output and next IV. */
  type Mode = (seq<byte>, seq<byte>) -> (seq<byte>, seq<byte>)

  datatype Cipher = Cipher(encrypt: Mode, decrypt: Mode, blocksize: nat)

  /** Output is as long as input, and a pass may be resumed, with the IV it left, behind a whole page. */
  ghost predicate Streaming(f: Mode, bs: nat) {
    && bs > 0
    && (forall iv, x | |x| % bs == 0 :: |f(iv, x).0| == |x|)
    && (forall iv, a, b | |a| == PAGE_SIZE && |b| % bs == 0 ::
          f(iv, a + b) == (f(iv, a).0 + f(f(iv, a).1, b).0, f(f(iv, a).1, b).1))
  }

  ghost predicate Lawful(c: Cipher) {
    Streaming(c.encrypt, c.blocksize) && Streaming(c.decrypt, c.blocksize) && PAGE_SIZE % c.blocksize == 0
  }

  ghost predicate Inverse(c: Cipher) {
    forall iv, x | c.blocksize > 0 && |x| % c.blocksize == 0 :: c.decrypt(iv, c.encrypt(iv, x).0).0 == x
  }

  /** A session: which parts are initialised, the chaining IV, and all bytes fed to the hash so far. */
  datatype Ses = Ses(cipherInit: bool, hashInit: bool, iv: seq<byte>, hashed: seq<byte>)

  // ----- specification -----

  /** The cipher accepts this length. */
  ghost predicate Fits(c: Cipher, cipherInit: bool, len: nat) {
    cipherInit ==> Lawful(c) && len % c.blocksize == 0
  }

  function Direction(c: Cipher, encrypt: bool): Mode { if encrypt then c.encrypt else c.decrypt }

  /** hash_n_crypt on the contents of source and destination: plaintext is hashed, before or after ciphering. */
  function HashNCrypt(c: Cipher, encrypt: bool, s: Ses, src: seq<byte>, dst: seq<byte>): (Ses, seq<byte>) {
    var (out, iv) := if s.cipherInit then Direction(c, encrypt)(s.iv, src) else (dst, s.iv);
    var text := if encrypt then src else out;
    (s.(iv := iv, hashed := if s.hashInit then s.hashed + text else s.hashed), out)
  }

  /** Through the bounce buffer, source and destination are the same page. */
  function Chunked(c: Cipher, encrypt: bool, s: Ses, input: seq<byte>): (Ses, seq<byte>)
    decreases |input|
  {
    if |input| <= PAGE_SIZE then if input == [] then (s, []) else HashNCrypt(c, encrypt, s, input, input)
    else
      var (s1, out1) := HashNCrypt(c, encrypt, s, input[..PAGE_SIZE], input[..PAGE_SIZE]);
      var (s2, out2) := Chunked(c, encrypt, s1, input[PAGE_SIZE..]);
      (s2, out1 + out2)
  }

  lemma HashNCryptSplit(c: Cipher, encrypt: bool, s: Ses, a: seq<byte>, b: seq<byte>)
    requires |a| == PAGE_SIZE && Fits(c, s.cipherInit, |a|) && Fits(c, s.cipherInit, |b|)
    ensures var (s1, out1) := HashNCrypt(c, encrypt, s, a, a);
            var (s2, out2) := HashNCrypt(c, encrypt, s1, b, b);
            HashNCrypt(c, encrypt, s, a + b, a + b) == (s2, out1 + out2)
  {
    var (s1, out1) := HashNCrypt(c, encrypt, s, a, a);
    var (s2, out2) := HashNCrypt(c, encrypt, s1, b, b);
    if encrypt {
      ConcatAssociative(s.hashed, a, b);
    } else {
      ConcatAssociative(s.hashed, out1, out2);
    }
  }

  lemma MultipleMinus(n: nat, m: nat, unit: nat)
    requires unit > 0 && n % unit == 0 && m % unit == 0 && m <= n
    ensures (n - m) % unit == 0
  {
    DivMod(n, unit);
    DivMod(m, unit);
    assert n - m == unit * (n / unit) - unit * (m / unit) == unit * (n / unit - m / unit);
    NearMultiples(m, n, unit);
    QuotientOrder(m, n, unit);
    MultipleMod(n / unit - m / unit, unit);
  }

  lemma QuotientOrder(m: nat, n: nat, unit: nat)
    requires unit > 0 && m <= n
    ensures m / unit <= n / unit
  {
    DivMod(n, unit);
    DivMod(m, unit);
    var d := m / unit - n / unit;
    assert unit * d == unit * (m / unit) - unit * (n / unit);
    Product(unit, d);
  }

  /** Page by page or all at once: the same output, hash input and final IV, in both directions. */
  lemma {:induction false} ChunkedEqualsWhole(c: Cipher, encrypt: bool, s: Ses, input: seq<byte>)
    requires input != [] && Fits(c, s.cipherInit, |input|)
    ensures Chunked(c, encrypt, s, input) == HashNCrypt(c, encrypt, s, input, input)
    decreases |input|
  {
    if |input| > PAGE_SIZE {
      var a, b := input[..PAGE_SIZE], input[PAGE_SIZE..];
      if s.cipherInit {
        MultipleMinus(|input|, PAGE_SIZE, c.blocksize);
      }
      var s1 := HashNCrypt(c, encrypt, s, a, a).0;
      ChunkedEqualsWhole(c, encrypt, s1, b);
      HashNCryptSplit(c, encrypt, s, a, b);
      SplitAt(input, PAGE_SIZE);
    }
  }

  /** Encrypting and then decrypting from the same IV restores the data, however both are chunked. */
  lemma ChunkedRoundTrip(c: Cipher, s: Ses, t: Ses, input: seq<byte>)
    requires s.cipherInit && t.cipherInit && s.iv == t.iv && Lawful(c) && Inverse(c)
    requires input != [] && |input| % c.blocksize == 0
    ensures Chunked(c, false, t, Chunked(c, true, s, input).1).1 == input
  {
    var sealed := Chunked(c, true, s, input).1;
    ChunkedEqualsWhole(c, true, s, input);
    assert |sealed| == |input|;
    ChunkedEqualsWhole(c, false, t, sealed);
  }

  /** What each path leaves behind: the session and the contents of the destination buffer. */
  function StandardPath(c: Cipher, encrypt: bool, s: Ses, src: seq<byte>, dst: seq<byte>): (Ses, seq<byte>) {
    var (s1, out) := Chunked(c, encrypt, s, src);
    (s1, if s.cipherInit then out else dst)
  }

  function ZeroCopyPath(c: Cipher, encrypt: bool, s: Ses, src: seq<byte>, dst: seq<byte>): (Ses, seq<byte>) {
    HashNCrypt(c, encrypt, s, src, dst)
  }

  /**
   * Both paths agree except for a pure hash in the decrypt direction: there the zero-copy path hashes the
   * destination buffer and the other one the source, so they agree exactly when both hold the same bytes.
   */
  lemma PathsAgree(c: Cipher, encrypt: bool, s: Ses, src: seq<byte>, dst: seq<byte>)
    requires src != [] && |dst| == |src| && Fits(c, s.cipherInit, |src|)
    ensures StandardPath(c, encrypt, s, src, dst) == ZeroCopyPath(c, encrypt, s, src, dst)
            <==> !(!encrypt && !s.cipherInit && s.hashInit && src != dst)
  {
    ChunkedEqualsWhole(c, encrypt, s, src);
    if !encrypt && !s.cipherInit && s.hashInit && src != dst {
      assert (s.hashed + src)[|s.hashed|..] == src && (s.hashed + dst)[|s.hashed|..] == dst;
    }
  }

  // ----- what is hashed -----

  /** Encrypting hashes the source, decrypting what it results in; without a cipher that is the destination as it was. */
  lemma WholeHashes(c: Cipher, encrypt: bool, s: Ses, src: seq<byte>, dst: seq<byte>)
    requires s.hashInit
    ensures var (s1, out) := HashNCrypt(c, encrypt, s, src, dst);
            s1.hashed == s.hashed + if encrypt then src else out
    ensures var (s1, out) := HashNCrypt(c, encrypt, s, src, dst); !s.cipherInit ==> out == dst
  {
  }

  /** Encrypting and then decrypting feeds both hashes the same bytes, the plaintext. */
  lemma BothHashPlaintext(c: Cipher, s: Ses, t: Ses, text: seq<byte>, dst1: seq<byte>, dst2: seq<byte>)
    requires s.cipherInit && t.cipherInit && s.hashInit && t.hashInit && s.iv == t.iv && Inverse(c)
    requires c.blocksize > 0 && |text| % c.blocksize == 0
    ensures var (s1, sealed) := HashNCrypt(c, true, s, text, dst1);
            var (t1, plain) := HashNCrypt(c, false, t, sealed, dst2);
            plain == text && s1.hashed == s.hashed + text && t1.hashed == t.hashed + text
  {
  }

  // ----- a mode that satisfies the law -----

  /** One block, or the part of one at the end: chaining value and input to output and next chaining value. */
  type BlockStep = (seq<byte>, seq<byte>) -> (seq<byte>, seq<byte>)

  function Blockwise(g: BlockStep, unit: nat, iv: seq<byte>, x: seq<byte>): (seq<byte>, seq<byte>)
    requires unit > 0
    decreases |x|
  {
    if x == [] then ([], iv)
    else
      var n := Min(|x|, unit);
      var (y, next) := g(iv, x[..n]);
      var (ys, last) := Blockwise(g, unit, next, x[n..]);
      (y + ys, last)
  }

  /** The first block of a longer text. */
  lemma BlockwiseHead(g: BlockStep, unit: nat, iv: seq<byte>, a: seq<byte>, b: seq<byte>)
    requires unit > 0 && |a| >= unit
    ensures var (ys, last) := Blockwise(g, unit, g(iv, a[..unit]).1, a[unit..] + b);
            Blockwise(g, unit, iv, a + b) == (g(iv, a[..unit]).0 + ys, last)
  {
    assert (a + b)[..unit] == a[..unit] && (a + b)[unit..] == a[unit..] + b;
  }

  /** Work block by block, chaining a value, may be resumed behind whole blocks. */
  lemma {:induction false} BlockwiseStreams(g: BlockStep, unit: nat, iv: seq<byte>, a: seq<byte>, b: seq<byte>)
    requires unit > 0 && |a| % unit == 0
    ensures var (ya, mid) := Blockwise(g, unit, iv, a);
            var (yb, last) := Blockwise(g, unit, mid, b);
            Blockwise(g, unit, iv, a + b) == (ya + yb, last)
    decreases |a|
  {
    if |a| < unit {
      QuotientIsUnique(|a|, unit, 0, |a|);
      assert a == [] && a + b == b;
      assert [] + Blockwise(g, unit, iv, b).0 == Blockwise(g, unit, iv, b).0;
    } else {
      var y, next := g(iv, a[..unit]).0, g(iv, a[..unit]).1;
      assert |a[unit..]| % unit == 0 by { MultipleMinus(|a|, unit, unit); }
      BlockwiseStreams(g, unit, next, a[unit..], b);
      BlockwiseHead(g, unit, iv, a, b);
      var (ys, mid) := Blockwise(g, unit, next, a[unit..]);
      ConcatAssociative(y, ys, Blockwise(g, unit, mid, b).0);
    }
  }

  lemma {:induction false} BlockwiseLength(g: BlockStep, unit: nat, iv: seq<byte>, x: seq<byte>)
    requires unit > 0 && forall v, z | |z| <= unit :: |g(v, z).0| == |z|
    ensures |Blockwise(g, unit, iv, x).0| == |x|
    decreases |x|
  {
    if x != [] {
      var n := Min(|x|, unit);
      BlockwiseLength(g, unit, g(iv, x[..n]).1, x[n..]);
    }
  }

  /**
   * So every mode that works on blocks which divide a page obeys the law: block chaining with the block as block size,
   * and counter modes, whose block size is 1 and which drop what is left of a block at the end of a pass.
   */
  lemma BlockwiseIsStreaming(g: BlockStep, unit: nat, bs: nat)
    requires unit > 0 && PAGE_SIZE % unit == 0 && bs > 0 && forall v, z | |z| <= unit :: |g(v, z).0| == |z|
    ensures Streaming((iv, x) => Blockwise(g, unit, iv, x), bs)
  {
    forall iv, x | |x| % bs == 0 ensures |Blockwise(g, unit, iv, x).0| == |x| {
      BlockwiseLength(g, unit, iv, x);
    }
    forall iv, a, b | |a| == PAGE_SIZE && |b| % bs == 0
      ensures Blockwise(g, unit, iv, a + b) ==
              (Blockwise(g, unit, iv, a).0 + Blockwise(g, unit, Blockwise(g, unit, iv, a).1, b).0,
               Blockwise(g, unit, Blockwise(g, unit, iv, a).1, b).1)
    {
      BlockwiseStreams(g, unit, iv, a, b);
    }
  }

  // ----- the driver -----

  const EINVAL := -22

  lemma OutputLength(c: Cipher, encrypt: bool, s: Ses, data: seq<byte>)
    requires Fits(c, s.cipherInit, |data|)
    ensures |HashNCrypt(c, encrypt, s, data, data).1| == |data|
  {
  }

  lemma DestinationLength(c: Cipher, encrypt: bool, s: Ses, src: seq<byte>, dst: seq<byte>)
    requires |dst| == |src| && Fits(c, s.cipherInit, |src|)
    ensures |HashNCrypt(c, encrypt, s, src, dst).1| == |src|
  {
  }

  lemma FitsPage(c: Cipher, cipherInit: bool, len: nat, n: nat)
    requires Fits(c, cipherInit, len) && n == Min(len, PAGE_SIZE)
    ensures Fits(c, cipherInit, n) && Fits(c, cipherInit, len - n)
  {
    if cipherInit {
      MultipleMinus(len, n, c.blocksize);
    }
  }

  // ----- pages in a memory -----

  /** The memory with `out` written at `at`. */
  function Put(m: seq<byte>, at: nat, out: seq<byte>): (m1: seq<byte>)
    requires at + |out| <= |m|
    ensures |m1| == |m|
    ensures forall k | 0 <= k < |m| :: m1[k] == if at <= k < at + |out| then out[k - at] else m[k]
  {
    m[..at] + out + m[at + |out|..]
  }

  /** One page: the session after it, and its output, which is written back only by a cipher. */
  ghost function Page(c: Cipher, encrypt: bool, s: Ses, m: seq<byte>, src: nat, dst: nat, n: nat): (r: (Ses, seq<byte>))
    requires src + n <= |m| && dst + n <= |m| && Fits(c, s.cipherInit, n)
    ensures r.0.cipherInit == s.cipherInit && |r.1| == |m|
  {
    OutputLength(c, encrypt, s, m[src..src + n]);
    var (s1, out) := HashNCrypt(c, encrypt, s, m[src..src + n], m[src..src + n]);
    (s1, if s.cipherInit then Put(m, dst, out) else m)
  }

  /** The pages one after the other; each is read when its predecessors have been written. */
  ghost function Pages(c: Cipher, encrypt: bool, s: Ses, m: seq<byte>, src: nat, dst: nat, len: nat): (r: (Ses, seq<byte>))
    requires src + len <= |m| && dst + len <= |m| && Fits(c, s.cipherInit, len)
    ensures |r.1| == |m|
    decreases len
  {
    if len == 0 then (s, m)
    else
      var n := Min(len, PAGE_SIZE);
      FitsPage(c, s.cipherInit, len, n);
      var (s1, m1) := Page(c, encrypt, s, m, src, dst, n);
      Pages(c, encrypt, s1, m1, src + n, dst + n, len - n)
  }

  lemma NoPages(c: Cipher, encrypt: bool, s: Ses, m: seq<byte>, src: nat, dst: nat)
    requires src <= |m| && dst <= |m| && Fits(c, s.cipherInit, 0)
    ensures Pages(c, encrypt, s, m, src, dst, 0) == (s, m)
  {
  }

  lemma PagesNext(c: Cipher, encrypt: bool, s: Ses, m: seq<byte>, src: nat, dst: nat, len: nat, n: nat)
    requires src + len <= |m| && dst + len <= |m| && Fits(c, s.cipherInit, len) && 0 < n == Min(len, PAGE_SIZE)
    ensures Fits(c, s.cipherInit, n) && Fits(c, s.cipherInit, len - n)
    ensures var (s1, m1) := Page(c, encrypt, s, m, src, dst, n);
            Pages(c, encrypt, s, m, src, dst, len) == Pages(c, encrypt, s1, m1, src + n, dst + n, len - n)
  {
    hide Page, Fits;
    FitsPage(c, s.cipherInit, len, n);
  }

  lemma {:induction false} PagesFrame(c: Cipher, encrypt: bool, s: Ses, m: seq<byte>, src: nat, dst: nat, len: nat)
    requires src + len <= |m| && dst + len <= |m| && Fits(c, s.cipherInit, len)
    ensures forall k | 0 <= k < |m| && !(dst <= k < dst + len) :: Pages(c, encrypt, s, m, src, dst, len).1[k] == m[k]
    decreases len
  {
    if len != 0 {
      var n := Min(len, PAGE_SIZE);
      FitsPage(c, s.cipherInit, len, n);
      OutputLength(c, encrypt, s, m[src..src + n]);
      var (s1, m1) := Page(c, encrypt, s, m, src, dst, n);
      PagesFrame(c, encrypt, s1, m1, src + n, dst + n, len - n);
    }
  }

  /** No page is written over source bytes that are still to be read. */
  predicate Intact(cipherInit: bool, src: nat, dst: nat, len: nat) {
    !cipherInit || dst <= src || src + len <= dst || len <= PAGE_SIZE
  }

  /** The pages compute what the whole source gives, and leave it at the destination. */
  ghost predicate PagesAgree(c: Cipher, encrypt: bool, s: Ses, m: seq<byte>, src: nat, dst: nat, len: nat)
    requires src + len <= |m| && dst + len <= |m| && Fits(c, s.cipherInit, len)
  {
    var (s1, m1) := Pages(c, encrypt, s, m, src, dst, len);
    (s1, m1[dst..dst + len]) == StandardPath(c, encrypt, s, m[src..src + len], m[dst..dst + len])
  }

  /**
   * Page by page: decrypting hashes what ends up at the destination, whatever overlaps, and encrypting the source, if no
   * unread byte of it is written over.
   */
  lemma {:induction false} PagesHash(c: Cipher, encrypt: bool, s: Ses, m: seq<byte>, src: nat, dst: nat, len: nat)
    requires src + len <= |m| && dst + len <= |m| && Fits(c, s.cipherInit, len) && s.hashInit
    ensures var (s1, m1) := Pages(c, encrypt, s, m, src, dst, len);
            && (!encrypt && s.cipherInit ==> s1.hashed == s.hashed + m1[dst..dst + len])
            && ((encrypt || !s.cipherInit) && Intact(s.cipherInit, src, dst, len) ==>
                  s1.hashed == s.hashed + m[src..src + len])
    decreases len
  {
    hide Page, Pages, Fits;
    if len == 0 {
      NoPages(c, encrypt, s, m, src, dst);
      assert s.hashed + [] == s.hashed && m[src..src] == m[dst..dst] == [];
    } else {
      var n := Min(len, PAGE_SIZE);
      PagesNext(c, encrypt, s, m, src, dst, len, n);
      var (s1, m1) := Page(c, encrypt, s, m, src, dst, n);
      PageHashes(c, encrypt, s, m, src, dst, n);
      PagesHash(c, encrypt, s1, m1, src + n, dst + n, len - n);
      PagesFrame(c, encrypt, s1, m1, src + n, dst + n, len - n);
      PagesHashJoin(c, encrypt, s, m, src, dst, len, n);
    }
  }

  lemma PageHashes(c: Cipher, encrypt: bool, s: Ses, m: seq<byte>, src: nat, dst: nat, n: nat)
    requires src + n <= |m| && dst + n <= |m| && Fits(c, s.cipherInit, n) && s.hashInit
    ensures var (s1, m1) := Page(c, encrypt, s, m, src, dst, n);
            && s1.hashInit
            && (!encrypt && s.cipherInit ==> s1.hashed == s.hashed + m1[dst..dst + n])
            && (encrypt || !s.cipherInit ==> s1.hashed == s.hashed + m[src..src + n])
            && (!s.cipherInit ==> m1 == m)
            && forall k | 0 <= k < |m| && !(dst <= k < dst + n) :: m1[k] == m[k]
  {
    OutputLength(c, encrypt, s, m[src..src + n]);
    var out := HashNCrypt(c, encrypt, s, m[src..src + n], m[src..src + n]).1;
    assert s.cipherInit ==> Put(m, dst, out)[dst..dst + n] == out;
  }

  lemma PagesHashJoin(c: Cipher, encrypt: bool, s: Ses, m: seq<byte>, src: nat, dst: nat, len: nat, n: nat)
    requires src + len <= |m| && dst + len <= |m| && Fits(c, s.cipherInit, len) && s.hashInit && 0 < n == Min(len, PAGE_SIZE)
    requires Fits(c, s.cipherInit, n) && Fits(c, s.cipherInit, len - n)
    requires var (s1, m1) := Page(c, encrypt, s, m, src, dst, n);
             var (s2, m2) := Pages(c, encrypt, s1, m1, src + n, dst + n, len - n);
             && (!encrypt && s.cipherInit ==> s1.hashed == s.hashed + m1[dst..dst + n])
             && (encrypt || !s.cipherInit ==> s1.hashed == s.hashed + m[src..src + n])
             && (!s.cipherInit ==> m1 == m)
             && (forall k | 0 <= k < |m| && !(dst <= k < dst + n) :: m1[k] == m[k])
             && (forall k | 0 <= k < |m| && !(dst + n <= k < dst + len) :: m2[k] == m1[k])
             && (!encrypt && s.cipherInit ==> s2.hashed == s1.hashed + m2[dst + n..dst + len])
             && ((encrypt || !s.cipherInit) && Intact(s.cipherInit, src + n, dst + n, len - n) ==>
                   s2.hashed == s1.hashed + m1[src + n..src + len])
    ensures var (s1, m1) := Page(c, encrypt, s, m, src, dst, n);
            var (s2, m2) := Pages(c, encrypt, s1, m1, src + n, dst + n, len - n);
            && (!encrypt && s.cipherInit ==> s2.hashed == s.hashed + m2[dst..dst + len])
            && ((encrypt || !s.cipherInit) && Intact(s.cipherInit, src, dst, len) ==>
                  s2.hashed == s.hashed + m[src..src + len])
  {
    hide Page, Pages, Fits;
    var (s1, m1) := Page(c, encrypt, s, m, src, dst, n);
    var (s2, m2) := Pages(c, encrypt, s1, m1, src + n, dst + n, len - n);
    if !encrypt && s.cipherInit {
      SliceJoin(m2, dst, dst + n, dst + len);
      assert m2[dst..dst + n] == m1[dst..dst + n];
      ConcatAssociative(s.hashed, m1[dst..dst + n], m2[dst + n..dst + len]);
    } else if Intact(s.cipherInit, src, dst, len) {
      SliceJoin(m, src, src + n, src + len);
      assert m1[src + n..src + len] == m[src + n..src + len];
      ConcatAssociative(s.hashed, m[src..src + n], m[src + n..src + len]);
    }
  }

  /** The first page of a longer run, in the memory and in the text. */
  lemma FirstPage(c: Cipher, encrypt: bool, s: Ses, m: seq<byte>, src: nat, dst: nat, len: nat)
    requires src + len <= |m| && dst + len <= |m| && len > PAGE_SIZE
    requires Fits(c, s.cipherInit, len) && Fits(c, s.cipherInit, PAGE_SIZE) && Intact(s.cipherInit, src, dst, len)
    ensures var (s1, m1) := Page(c, encrypt, s, m, src, dst, PAGE_SIZE);
            var (s2, rest) := Chunked(c, encrypt, s1, m1[src + PAGE_SIZE..src + len]);
            var page := m[src..src + PAGE_SIZE];
            Chunked(c, encrypt, s, m[src..src + len]) == (s2, HashNCrypt(c, encrypt, s, page, page).1 + rest)
  {
    var input, m1 := m[src..src + len], Page(c, encrypt, s, m, src, dst, PAGE_SIZE).1;
    OutputLength(c, encrypt, s, m[src..src + PAGE_SIZE]);
    assert input[..PAGE_SIZE] == m[src..src + PAGE_SIZE];
    assert input[PAGE_SIZE..] == m1[src + PAGE_SIZE..src + len];
  }

  lemma SliceJoin(m: seq<byte>, a: nat, b: nat, c: nat)
    requires a <= b <= c <= |m|
    ensures m[a..c] == m[a..b] + m[b..c]
  {
  }

  /** What later pages leave of the first one. */
  lemma FirstPageStays(c: Cipher, encrypt: bool, s: Ses, m: seq<byte>, src: nat, dst: nat, len: nat)
    requires src + len <= |m| && dst + len <= |m| && len > PAGE_SIZE
    requires Fits(c, s.cipherInit, len) && Fits(c, s.cipherInit, PAGE_SIZE) && Fits(c, s.cipherInit, len - PAGE_SIZE)
    ensures var (s1, m1) := Page(c, encrypt, s, m, src, dst, PAGE_SIZE);
            var m2 := Pages(c, encrypt, s1, m1, src + PAGE_SIZE, dst + PAGE_SIZE, len - PAGE_SIZE).1;
            var page := m[src..src + PAGE_SIZE];
            m2[dst..dst + PAGE_SIZE] ==
            if s.cipherInit then HashNCrypt(c, encrypt, s, page, page).1 else m[dst..dst + PAGE_SIZE]
  {
    hide Pages, HashNCrypt, Fits;
    var (s1, m1) := Page(c, encrypt, s, m, src, dst, PAGE_SIZE);
    OutputLength(c, encrypt, s, m[src..src + PAGE_SIZE]);
    PagesFrame(c, encrypt, s1, m1, src + PAGE_SIZE, dst + PAGE_SIZE, len - PAGE_SIZE);
  }

  lemma OnePageAgrees(c: Cipher, encrypt: bool, s: Ses, m: seq<byte>, src: nat, dst: nat, len: nat)
    requires src + len <= |m| && dst + len <= |m| && Fits(c, s.cipherInit, len) && len <= PAGE_SIZE
    ensures PagesAgree(c, encrypt, s, m, src, dst, len)
  {
    var page := m[src..src + len];
    if len == 0 {
      assert page == [] && m[dst..dst + len] == [];
    } else {
      OutputLength(c, encrypt, s, page);
      var (s1, m1) := Page(c, encrypt, s, m, src, dst, len);
      assert Pages(c, encrypt, s, m, src, dst, len) == (s1, m1) by {
        FitsPage(c, s.cipherInit, len, len);
      }
      assert s.cipherInit ==> m1[dst..dst + len] == HashNCrypt(c, encrypt, s, page, page).1;
    }
  }

  /** The rest of the pages in the memory behind the first one. */
  lemma PagesAgreeNext(c: Cipher, encrypt: bool, s: Ses, m: seq<byte>, src: nat, dst: nat, len: nat)
    requires src + len <= |m| && dst + len <= |m| && len > PAGE_SIZE && Intact(s.cipherInit, src, dst, len)
    requires Fits(c, s.cipherInit, len) && Fits(c, s.cipherInit, PAGE_SIZE) && Fits(c, s.cipherInit, len - PAGE_SIZE)
    requires var (s1, m1) := Page(c, encrypt, s, m, src, dst, PAGE_SIZE);
             PagesAgree(c, encrypt, s1, m1, src + PAGE_SIZE, dst + PAGE_SIZE, len - PAGE_SIZE)
    ensures PagesAgree(c, encrypt, s, m, src, dst, len)
  {
    hide HashNCrypt, Chunked, Page, Fits, Intact;
    var (s1, m1) := Page(c, encrypt, s, m, src, dst, PAGE_SIZE);
    var m2 := Pages(c, encrypt, s1, m1, src + PAGE_SIZE, dst + PAGE_SIZE, len - PAGE_SIZE).1;
    assert Pages(c, encrypt, s, m, src, dst, len) ==
           Pages(c, encrypt, s1, m1, src + PAGE_SIZE, dst + PAGE_SIZE, len - PAGE_SIZE);
    FirstPage(c, encrypt, s, m, src, dst, len);
    FirstPageStays(c, encrypt, s, m, src, dst, len);
    SliceJoin(m2, dst, dst + PAGE_SIZE, dst + len);
    SliceJoin(m, dst, dst + PAGE_SIZE, dst + len);
    assert !s.cipherInit ==> m1 == m by { PageWithoutCipher(c, encrypt, s, m, src, dst, PAGE_SIZE); }
  }

  lemma PageWithoutCipher(c: Cipher, encrypt: bool, s: Ses, m: seq<byte>, src: nat, dst: nat, n: nat)
    requires src + n <= |m| && dst + n <= |m| && Fits(c, s.cipherInit, n)
    ensures !s.cipherInit ==> Page(c, encrypt, s, m, src, dst, n).1 == m
  {
  }

  /** Page by page is all at once, for every cipher and memory, when no unread source byte is written over ... */
  lemma {:induction false} IntactPagesAgree(c: Cipher, encrypt: bool, s: Ses, m: seq<byte>, src: nat, dst: nat, len: nat)
    requires src + len <= |m| && dst + len <= |m| && Fits(c, s.cipherInit, len) && Intact(s.cipherInit, src, dst, len)
    ensures PagesAgree(c, encrypt, s, m, src, dst, len)
    decreases len
  {
    hide PagesAgree, Page;
    if len <= PAGE_SIZE {
      OnePageAgrees(c, encrypt, s, m, src, dst, len);
    } else {
      FitsPage(c, s.cipherInit, len, PAGE_SIZE);
      var (s1, m1) := Page(c, encrypt, s, m, src, dst, PAGE_SIZE);
      IntactPagesAgree(c, encrypt, s1, m1, src + PAGE_SIZE, dst + PAGE_SIZE, len - PAGE_SIZE);
      PagesAgreeNext(c, encrypt, s, m, src, dst, len);
    }
  }

  /** A cipher that copies. */
  function Copying(): Cipher { Cipher((iv, x) => (x, iv), (iv, x) => (x, iv), 1) }

  function Zeros(n: nat): (z: seq<byte>)
    ensures |z| == n && forall k | 0 <= k < n :: z[k] == 0
  {
    seq(n, _ => 0 as byte)
  }

  lemma CopyingPage(s: Ses, m: seq<byte>, src: nat, dst: nat, n: nat)
    requires src + n <= |m| && dst + n <= |m| && s.cipherInit
    ensures Fits(Copying(), true, n)
    ensures Page(Copying(), true, s, m, src, dst, n).1 == Put(m, dst, m[src..src + n])
    ensures Page(Copying(), true, s, m, src, dst, n).0.cipherInit
  {
  }

  lemma {:induction false} CopyingZeros(s: Ses, n: nat, src: nat, dst: nat, len: nat)
    requires src + len <= n && dst + len <= n && s.cipherInit
    ensures Fits(Copying(), true, len) && Pages(Copying(), true, s, Zeros(n), src, dst, len).1 == Zeros(n)
    decreases len
  {
    hide Page, HashNCrypt;
    CopyingPage(s, Zeros(n), src, dst, len);
    if len != 0 {
      var p := Min(len, PAGE_SIZE);
      CopyingPage(s, Zeros(n), src, dst, p);
      var (s1, m1) := Page(Copying(), true, s, Zeros(n), src, dst, p);
      assert m1 == Zeros(n);
      CopyingZeros(s1, n, src + p, dst + p, len - p);
    }
  }

  /** Copying a memory whose only set byte is in the target of the first page, but not in its source. */
  lemma SetByteIsLost(s: Ses, n: nat, at: nat, src: nat, dst: nat, len: nat)
    requires src + len <= n && dst + len <= n && s.cipherInit && len > PAGE_SIZE
    requires src + PAGE_SIZE <= at && dst <= at < dst + PAGE_SIZE && at < n
    ensures Fits(Copying(), true, len) && Pages(Copying(), true, s, Zeros(n)[at := 1], src, dst, len).1 == Zeros(n)
  {
    hide Page, HashNCrypt;
    var m := Zeros(n)[at := 1];
    CopyingPage(s, m, src, dst, len);
    CopyingPage(s, m, src, dst, PAGE_SIZE);
    var (s1, m1) := Page(Copying(), true, s, m, src, dst, PAGE_SIZE);
    assert m1 == Zeros(n);
    CopyingZeros(s1, n, src + PAGE_SIZE, dst + PAGE_SIZE, len - PAGE_SIZE);
  }

  lemma CopyingWhole(s: Ses, input: seq<byte>, dst: seq<byte>)
    requires s.cipherInit && input != []
    ensures Fits(Copying(), true, |input|) && StandardPath(Copying(), true, s, input, dst).1 == input
  {
    ChunkedEqualsWhole(Copying(), true, s, input);
  }

  /** ... and when one is, copying a single set byte behind the first page loses it. */
  lemma OverlapLosesByte(s: Ses, src: nat, dst: nat, len: nat) returns (m: seq<byte>)
    requires s.cipherInit && !Intact(true, src, dst, len)
    ensures src + len <= |m| && dst + len <= |m| && Fits(Copying(), true, len)
    ensures !PagesAgree(Copying(), true, s, m, src, dst, len)
  {
    hide Pages, StandardPath, Fits;
    var k := Max(PAGE_SIZE, dst - src);
    m := Zeros(dst + len)[src + k := 1];
    SetByteIsLost(s, dst + len, src + k, src, dst, len);
    var input := m[src..src + len];
    CopyingWhole(s, input, m[dst..dst + len]);
    assert input[k] == 1 && Zeros(dst + len)[dst..dst + len][k] == 0;
  }

  /** The buffers are the same or do not overlap. */
  predicate SameOrDisjoint(src: nat, dst: nat, len: nat) {
    src == dst || src + len <= dst || dst + len <= src
  }

  class Session {
    const cipher: Cipher
    const cipherInit: bool
    const hashInit: bool
    var iv: seq<byte>
    var hashed: seq<byte>

    ghost function State(): Ses
      reads this
    {
      Ses(cipherInit, hashInit, iv, hashed)
    }

    /** The session accepts requests of this length. */
    ghost predicate CanRun(len: nat) {
      Fits(cipher, cipherInit, len)
    }

    constructor (cipher: Cipher, cipherInit: bool, hashInit: bool, iv: seq<byte>)
      ensures this.cipher == cipher && State() == Ses(cipherInit, hashInit, iv, [])
    {
      this.cipher, this.cipherInit, this.hashInit, this.iv, hashed := cipher, cipherInit, hashInit, iv, [];
    }

    /** hash_n_crypt on given source contents; returns the new destination contents. */
    method HashAndCrypt(encrypt: bool, src: seq<byte>, dst: seq<byte>) returns (out: seq<byte>)
      modifies this
      ensures (State(), out) == HashNCrypt(cipher, encrypt, old(State()), src, dst)
      ensures hashed == old(hashed) + if !hashInit then [] else if encrypt then src else if cipherInit then out else dst
      ensures (out, iv) == if !cipherInit then (dst, old(iv))
                           else if encrypt then cipher.encrypt(old(iv), src) else cipher.decrypt(old(iv), src)
    {
      out := dst;
      if encrypt {
        if hashInit {
          hashed := hashed + src;
        }
        if cipherInit {
          var r := cipher.encrypt(iv, src);
          out, iv := r.0, r.1;
        }
      } else {
        if cipherInit {
          var r := cipher.decrypt(iv, src);
          out, iv := r.0, r.1;
        }
        if hashInit {
          hashed := hashed + out;
        }
      }
    }

    /** One turn of the loop of __crypto_run_std: a page goes through the bounce buffer. */
    method RunPage(encrypt: bool, mem: array<byte>, src: nat, dst: nat, len: nat, data: array<byte>)
      requires len <= data.Length && src + len <= mem.Length && dst + len <= mem.Length && data != mem && CanRun(len)
      modifies this, mem, data
      ensures (State(), mem[..]) == Page(cipher, encrypt, old(State()), old(mem[..]), src, dst, len)
    {
      ghost var m := mem[..];
      forall k | 0 <= k < len {
        data[k] := mem[src + k];
      }
      assert data[..len] == m[src..src + len];
      OutputLength(cipher, encrypt, State(), data[..len]);
      var out := HashAndCrypt(encrypt, data[..len], data[..len]);
      forall k | 0 <= k < len {
        data[k] := out[k];
      }
      if cipherInit {
        forall k | 0 <= k < len {
          mem[dst + k] := data[k];
        }
        assert mem[..] == Put(m, dst, out);
      } else {
        assert mem[..] == m;
      }
    }

    /** __crypto_run_std: page by page through a bounce buffer, whether or not the buffers overlap. */
    method RunStd(encrypt: bool, mem: array<byte>, src0: nat, dst0: nat, len: nat)
      requires src0 + len <= mem.Length && dst0 + len <= mem.Length && CanRun(len)
      modifies this, mem
      ensures (State(), mem[..]) == Pages(cipher, encrypt, old(State()), old(mem[..]), src0, dst0, len)
      ensures hashInit && !encrypt && cipherInit ==> hashed == old(hashed) + mem[dst0..dst0 + len]
      ensures hashInit && (encrypt || !cipherInit) && Intact(cipherInit, src0, dst0, len) ==>
                hashed == old(hashed) + old(mem[src0..src0 + len])
    {
      hide Pages, Page, Fits;
      ghost var s, m := State(), mem[..];
      RunPages(encrypt, mem, src0, dst0, len);
      if hashInit {
        PagesHash(cipher, encrypt, s, m, src0, dst0, len);
        assert m[src0..src0 + len] == old(mem[src0..src0 + len]) && mem[..][dst0..dst0 + len] == mem[dst0..dst0 + len];
      }
    }

    /** Its loop. */
    method RunPages(encrypt: bool, mem: array<byte>, src0: nat, dst0: nat, len: nat)
      requires src0 + len <= mem.Length && dst0 + len <= mem.Length && CanRun(len)
      modifies this, mem
      ensures (State(), mem[..]) == Pages(cipher, encrypt, old(State()), old(mem[..]), src0, dst0, len)
    {
      hide Pages, Page, Fits;
      ghost var goal := Pages(cipher, encrypt, State(), mem[..], src0, dst0, len);
      var nbytes, data := len, new byte[PAGE_SIZE](_ => 0);
      var bufsize := if PAGE_SIZE < nbytes then PAGE_SIZE else nbytes;
      var src: nat, dst: nat := src0, dst0;
      while nbytes > 0
        invariant 0 <= nbytes <= len && src + nbytes <= mem.Length && dst + nbytes <= mem.Length && CanRun(nbytes)
        invariant Pages(cipher, encrypt, State(), mem[..], src, dst, nbytes) == goal
        invariant fresh(data) && data.Length == PAGE_SIZE && (nbytes > bufsize ==> bufsize == PAGE_SIZE)
        decreases nbytes
      {
        var current := if nbytes > bufsize then bufsize else nbytes;
        PagesNext(cipher, encrypt, State(), mem[..], src, dst, nbytes, current);
        RunPage(encrypt, mem, src, dst, current, data);
        dst, nbytes, src := dst + current, nbytes - current, src + current;
      }
      NoPages(cipher, encrypt, State(), mem[..], src, dst);
    }

    /** __crypto_run_zc: all at once, or the other way when the user pages cannot be had. */
    method RunZc(encrypt: bool, mem: array<byte>, src: nat, dst: nat, len: nat, pagesOk: bool)
      requires src + len <= mem.Length && dst + len <= mem.Length && CanRun(len)
      modifies this, mem
      ensures !pagesOk ==> (State(), mem[..]) == Pages(cipher, encrypt, old(State()), old(mem[..]), src, dst, len)
      ensures pagesOk && (!cipherInit || SameOrDisjoint(src, dst, len)) ==>
                (State(), mem[dst..dst + len]) ==
                ZeroCopyPath(cipher, encrypt, old(State()), old(mem[src..src + len]), old(mem[dst..dst + len]))
      ensures hashInit && !encrypt && cipherInit ==> hashed == old(hashed) + mem[dst..dst + len]
      ensures hashInit && encrypt && Untangled(src, dst, len, false, pagesOk) ==>
                hashed == old(hashed) + old(mem[src..src + len])
      ensures hashInit && !encrypt && !cipherInit ==>
                hashed == old(hashed) + old(if pagesOk then mem[dst..dst + len] else mem[src..src + len])
      ensures forall k | 0 <= k < mem.Length && !(dst <= k < dst + len) :: mem[k] == old(mem[k])
    {
      if !pagesOk {
        PagesFrame(cipher, encrypt, State(), mem[..], src, dst, len);
        ghost var m := mem[..];
        RunStd(encrypt, mem, src, dst, len);
        assert forall k | 0 <= k < mem.Length && !(dst <= k < dst + len) :: mem[..][k] == m[k];
        return;
      }
      DestinationLength(cipher, encrypt, State(), mem[src..src + len], mem[dst..dst + len]);
      var out := HashAndCrypt(encrypt, mem[src..src + len], mem[dst..dst + len]);
      forall k | 0 <= k < len {
        mem[dst + k] := out[k];
      }
      assert mem[dst..dst + len] == out;
    }

    /** Neither path reads what it has written. */
    predicate Untangled(src: nat, dst: nat, len: nat, noZeroCopy: bool, pagesOk: bool) {
      if noZeroCopy || !pagesOk then Intact(cipherInit, src, dst, len) else !cipherInit || SameOrDisjoint(src, dst, len)
    }

    /** crypto_run from the block size check to the data path; the flag chooses the path. */
    method Run(encrypt: bool, mem: array<byte>, src: nat, dst: nat, len: nat, iv0: seq<byte>, noZeroCopy: bool, pagesOk: bool)
      returns (r: int)
      requires src + len <= mem.Length && dst + len <= mem.Length && (cipherInit ==> Lawful(cipher))
      modifies this, mem
      ensures r == if cipherInit && len % cipher.blocksize != 0 then EINVAL else 0
      ensures r == EINVAL ==> mem[..] == old(mem[..]) && State() == old(State())
      ensures forall k | 0 <= k < mem.Length && !(dst <= k < dst + len) :: mem[k] == old(mem[k])
      ensures r == 0 && hashInit && !encrypt && cipherInit ==> hashed == old(hashed) + mem[dst..dst + len]
      ensures r == 0 && hashInit && encrypt && Untangled(src, dst, len, noZeroCopy, pagesOk) ==>
                hashed == old(hashed) + old(mem[src..src + len])
      ensures r == 0 && hashInit && !encrypt && !cipherInit ==>
                hashed == old(hashed) + old(if pagesOk && !noZeroCopy then mem[dst..dst + len] else mem[src..src + len])
      ensures r == 0 && len > 0 && Untangled(src, dst, len, noZeroCopy, pagesOk)
              && (encrypt || cipherInit || !hashInit || old(mem[src..src + len]) == old(mem[dst..dst + len])) ==>
                (State(), mem[dst..dst + len]) ==
                HashNCrypt(cipher, encrypt, old(State()).(iv := if cipherInit then iv0 else old(iv)),
                           old(mem[src..src + len]), old(mem[dst..dst + len]))
    {
      if cipherInit {
        if len % cipher.blocksize != 0 {
          return EINVAL;
        }
        iv := iv0;
      }
      if len != 0 {
        RunPaths(encrypt, mem, src, dst, len, noZeroCopy, pagesOk);
      } else {
        assert mem[dst..dst] == old(mem[src..src]) == old(mem[dst..dst]) == [] && hashed + [] == hashed;
      }
      return 0;
    }

    method RunPaths(encrypt: bool, mem: array<byte>, src: nat, dst: nat, len: nat, noZeroCopy: bool, pagesOk: bool)
      requires src + len <= mem.Length && dst + len <= mem.Length && CanRun(len) && len > 0
      modifies this, mem
      ensures hashInit && !encrypt && cipherInit ==> hashed == old(hashed) + mem[dst..dst + len]
      ensures hashInit && encrypt && Untangled(src, dst, len, noZeroCopy, pagesOk) ==>
                hashed == old(hashed) + old(mem[src..src + len])
      ensures hashInit && !encrypt && !cipherInit ==>
                hashed == old(hashed) + old(if pagesOk && !noZeroCopy then mem[dst..dst + len] else mem[src..src + len])
      ensures forall k | 0 <= k < mem.Length && !(dst <= k < dst + len) :: mem[k] == old(mem[k])
      ensures Untangled(src, dst, len, noZeroCopy, pagesOk)
              && (encrypt || cipherInit || !hashInit || old(mem[src..src + len]) == old(mem[dst..dst + len])) ==>
                (State(), mem[dst..dst + len]) ==
                HashNCrypt(cipher, encrypt, old(State()), old(mem[src..src + len]), old(mem[dst..dst + len]))
    {
      hide Pages, HashNCrypt, Chunked, Fits, SameOrDisjoint;
      ghost var s, m := State(), mem[..];
      PathsAgree(cipher, encrypt, s, m[src..src + len], m[dst..dst + len]);
      PagesFrame(cipher, encrypt, s, m, src, dst, len);
      if Intact(cipherInit, src, dst, len) {
        IntactPagesAgree(cipher, encrypt, s, m, src, dst, len);
      }
      if noZeroCopy {
        RunStd(encrypt, mem, src, dst, len);
      } else {
        RunZc(encrypt, mem, src, dst, len, pagesOk);
      }
      assert m[src..src + len] == old(mem[src..src + len]) && m[dst..dst + len] == old(mem[dst..dst + len]);
      assert mem[..][dst..dst + len] == mem[dst..dst + len];
      forall k | 0 <= k < mem.Length && !(dst <= k < dst + len) ensures mem[k] == old(mem[k]) {
        assert mem[..][k] == mem[k] && m[k] == old(mem[k]);
      }
    }
  }
}
