/**
 AES key wrap (src/keystore/key_wrap.cpp, src/keystore/key_rotation.cpp), after RFC 3394. `Wrap`
 and `Unwrap` say what is computed; `KeyWrap` computes it in place, as the source does.
 */
module KeyWraps {
  import opened Wrappers
  import opened Words
  import opened WrapRounds

  type Block = b: seq<bv8> | |b| == 16 witness [0, 0, 0, 0, 0, 0, 0, 0, 0, 0, 0, 0, 0, 0, 0, 0]

  /** AES-256 in ECB mode under one key encryption key: any permutation of the blocks, with its inverse. */
  datatype Cipher = Cipher(encrypt: Block -> Block, decrypt: Block -> Block)

  ghost predicate Permutation(c: Cipher) {
    forall b: Block :: c.decrypt(c.encrypt(b)) == b && c.encrypt(c.decrypt(b)) == b
  }

  const AIV: bv64 := 0xA6A6_A6A6_A6A6_A6A6

  /** The default initial value, section 2.2.3.1 of RFC 3394. */
  const IV: Semi := [0xA6, 0xA6, 0xA6, 0xA6, 0xA6, 0xA6, 0xA6, 0xA6]

  function Mix(a: Semi, t: nat): Semi { Xor(a, BigEndian(t)) }

  function EncryptPair(c: Cipher, a: Semi, b: Semi): (Semi, Semi) {
    var x := c.encrypt(a + b);
    (x[..8], x[8..])
  }

  function DecryptPair(c: Cipher, a: Semi, b: Semi): (Semi, Semi) {
    var x := c.decrypt(a + b);
    (x[..8], x[8..])
  }

  /** The rounds instantiated: A | R[i] is enciphered, and t is mixed into A in big-endian order. */
  function Aes(c: Cipher): Primitives<Semi> {
    Primitives((a: Semi, b: Semi) => EncryptPair(c, a, b), (a: Semi, b: Semi) => DecryptPair(c, a, b),
               (a: Semi, t: nat) => Mix(a, t))
  }

  lemma PairInverse(c: Cipher, a: Semi, b: Semi)
    requires Permutation(c)
    ensures var x := EncryptPair(c, a, b); DecryptPair(c, x.0, x.1) == (a, b)
    ensures var x := DecryptPair(c, a, b); EncryptPair(c, x.0, x.1) == (a, b)
  {
    var e, d := c.encrypt(a + b), c.decrypt(a + b);
    assert e[..8] + e[8..] == e && d[..8] + d[8..] == d;
    assert (a + b)[..8] == a && (a + b)[8..] == b;
  }

  lemma AesLawful(c: Cipher)
    requires Permutation(c)
    ensures Aes(c).Lawful()
  {
    var p := Aes(c);
    forall a: Semi, b: Semi ensures p.decrypt(p.encrypt(a, b).0, p.encrypt(a, b).1) == (a, b) {
      PairInverse(c, a, b);
    }
    forall a: Semi, b: Semi ensures p.encrypt(p.decrypt(a, b).0, p.decrypt(a, b).1) == (a, b) {
      PairInverse(c, a, b);
    }
    forall a: Semi, t: nat ensures p.mix(p.mix(a, t), t) == a {
      XorTwice(a, BigEndian(t));
    }
  }

  // ---------------------------------------------------------------------------
  // Octet strings and semi-blocks
  // ---------------------------------------------------------------------------

  function Split(s: seq<bv8>): (r: seq<Semi>)
    requires |s| % 8 == 0
    ensures 8 * |r| == |s|
  {
    if s == [] then [] else Split(s[..|s| - 8]) + [s[|s| - 8..]]
  }

  function Join(r: seq<Semi>): (s: seq<bv8>)
    ensures |s| == 8 * |r|
  {
    if r == [] then [] else Join(r[..|r| - 1]) + r[|r| - 1]
  }

  lemma {:induction false} SplitJoin(r: seq<Semi>)
    ensures Split(Join(r)) == r
  {
    if r != [] {
      var s, n := Join(r), |r| - 1;
      SplitJoin(r[..n]);
      assert s[..|s| - 8] == Join(r[..n]) && s[|s| - 8..] == r[n];
    }
  }

  lemma {:induction false} JoinSplit(s: seq<bv8>)
    requires |s| % 8 == 0
    ensures Join(Split(s)) == s
  {
    if s != [] {
      var n := |s| - 8;
      JoinSplit(s[..n]);
      assert Split(s)[..|Split(s)| - 1] == Split(s[..n]);
      assert s == s[..n] + s[n..];
    }
  }

  // ---------------------------------------------------------------------------
  // What is computed
  // ---------------------------------------------------------------------------

  predicate LegalPlaintext(p: seq<bv8>) { |p| >= 16 && |p| % 8 == 0 }

  predicate LegalCiphertext(w: seq<bv8>) { |w| >= 24 && |w| % 8 == 0 }

  /** A holds the initial value and R the key. */
  function Start(p: seq<bv8>): Regs<Semi>
    requires |p| % 8 == 0
  {
    Regs(IV, Split(p))
  }

  function WrapRegs(c: Cipher, p: seq<bv8>): Regs<Semi>
    requires LegalPlaintext(p)
  {
    WrapSteps<Semi>(Aes(c), Start(p), |Start(p).r| * 6)
  }

  function WrapBytes(c: Cipher, p: seq<bv8>): seq<bv8>
    requires LegalPlaintext(p)
  {
    WrapRegs(c, p).a + Join(WrapRegs(c, p).r)
  }

  function Wrap(c: Cipher, p: seq<bv8>): Result<seq<bv8>> {
    if !LegalPlaintext(p) then Failure("Plaintext key size must be a multiple of 8 bytes and >= 16 bytes")
    else Success(WrapBytes(c, p))
  }

  /** The registers as read from a ciphertext. */
  function Received(w: seq<bv8>): Regs<Semi>
    requires LegalCiphertext(w)
  {
    Regs(w[..8], Split(w[8..]))
  }

  function UnwrapRegs(c: Cipher, w: seq<bv8>): Regs<Semi>
    requires LegalCiphertext(w)
  {
    UnwrapSteps<Semi>(Aes(c), Received(w), |Received(w).r| * 6)
  }

  function Unwrap(c: Cipher, w: seq<bv8>): Result<seq<bv8>> {
    if !LegalCiphertext(w) then Failure("Ciphertext key size must be a multiple of 8 bytes and >= 24 bytes") else
    var s := UnwrapRegs(c, w);
    if s.a != IV then Failure("CRITICAL SECURITY ERROR: Integrity verification failed.") else Success(Join(s.r))
  }

  lemma ReceivedSent(s: Regs<Semi>)
    requires |s.r| >= 2
    ensures LegalCiphertext(s.a + Join(s.r)) && Received(s.a + Join(s.r)) == s
  {
    var w := s.a + Join(s.r);
    assert w[..8] == s.a && w[8..] == Join(s.r);
    SplitJoin(s.r);
  }

  lemma SentReceived(w: seq<bv8>)
    requires LegalCiphertext(w)
    ensures Received(w).a + Join(Received(w).r) == w
  {
    JoinSplit(w[8..]);
    assert w == w[..8] + w[8..];
  }

  lemma RegsInverse(c: Cipher, s: Regs<Semi>)
    requires Permutation(c) && s.r != []
    ensures UnwrapSteps<Semi>(Aes(c), WrapSteps<Semi>(Aes(c), s, |s.r| * 6), |s.r| * 6) == s
    ensures WrapSteps<Semi>(Aes(c), UnwrapSteps<Semi>(Aes(c), s, |s.r| * 6), |s.r| * 6) == s
  {
    AesLawful(c);
    UnwrapAfterWrap<Semi>(Aes(c), s, |s.r| * 6);
    WrapAfterUnwrap<Semi>(Aes(c), s, |s.r| * 6);
  }

  /** Unwrapping a wrapped key gives the key back, for every legal key. */
  lemma UnwrapWrap(c: Cipher, p: seq<bv8>)
    requires Permutation(c) && LegalPlaintext(p)
    ensures LegalCiphertext(WrapBytes(c, p)) && Unwrap(c, WrapBytes(c, p)) == Success(p)
  {
    ReceivedSent(WrapRegs(c, p));
    RegsInverse(c, Start(p));
    JoinSplit(p);
  }

  lemma WrapsBack(c: Cipher, w: seq<bv8>, p: seq<bv8>)
    requires Permutation(c) && LegalCiphertext(w) && LegalPlaintext(p) && UnwrapRegs(c, w) == Start(p)
    ensures WrapBytes(c, p) == w
  {
    RegsInverse(c, Received(w));
    assert WrapRegs(c, p) == Received(w);
    SentReceived(w);
  }

  lemma WrapUnwrap(c: Cipher, w: seq<bv8>)
    requires Permutation(c) && Unwrap(c, w).Success?
    ensures LegalPlaintext(Unwrap(c, w).value) && WrapBytes(c, Unwrap(c, w).value) == w
  {
    var e := UnwrapRegs(c, w);
    StartOf(e);
    WrapsBack(c, w, Join(e.r));
  }

  lemma StartOf(s: Regs<Semi>)
    requires s.a == IV && |s.r| >= 2
    ensures LegalPlaintext(Join(s.r)) && Start(Join(s.r)) == s
  {
    SplitJoin(s.r);
  }

  /** A ciphertext is accepted exactly when it is the wrapping of the key it unwraps to. */
  lemma AcceptsExactlyWrapped(c: Cipher, w: seq<bv8>, p: seq<bv8>)
    requires Permutation(c)
    ensures Unwrap(c, w) == Success(p) <==> Wrap(c, p) == Success(w)
  {
    if Unwrap(c, w) == Success(p) {
      WrapUnwrap(c, w);
    }
    if Wrap(c, p) == Success(w) {
      UnwrapWrap(c, p);
    }
  }

  /** The indexed rounds give the ciphertext of the shift-register description, for every legal key. */
  lemma WrapIsShiftRegister(c: Cipher, p: seq<bv8>)
    requires LegalPlaintext(p)
    ensures WrapRegs(c, p) == ShiftSteps<Semi>(Aes(c), Start(p), |Start(p).r| * 6)
  {
    ShiftAfterRounds<Semi>(Aes(c), Start(p), 6);
  }

  // ---------------------------------------------------------------------------
  // Key rotation
  // ---------------------------------------------------------------------------

  /** `key_rewrap_wrapped`. */
  function Rewrap(oldKek: Cipher, newKek: Cipher, w: seq<bv8>): Result<seq<bv8>> {
    var raw :- Unwrap(oldKek, w);
    Wrap(newKek, raw)
  }

  /** Rewrapping from `kek` along a list of keys. */
  function RewrapAll(kek: Cipher, keks: seq<Cipher>, w: seq<bv8>): Result<seq<bv8>>
    decreases |keks|
  {
    if keks == [] then Success(w) else
    var next :- Rewrap(kek, keks[0], w);
    RewrapAll(keks[0], keks[1..], next)
  }

  lemma RewrapOnce(kek: Cipher, next: Cipher, p: seq<bv8>)
    requires Permutation(kek) && LegalPlaintext(p)
    ensures Rewrap(kek, next, WrapBytes(kek, p)) == Success(WrapBytes(next, p))
  {
    UnwrapWrap(kek, p);
  }

  /** The key before position `i` of the list. */
  function KekAt(kek: Cipher, keks: seq<Cipher>, i: nat): Cipher
    requires i <= |keks|
  {
    if i == 0 then kek else keks[i - 1]
  }

  lemma {:induction false} RewrapChain(kek: Cipher, keks: seq<Cipher>, v: seq<seq<bv8>>)
    requires |v| == |keks| + 1
    requires forall i: nat :: i < |keks| ==> Rewrap(KekAt(kek, keks, i), keks[i], v[i]) == Success(v[i + 1])
    ensures RewrapAll(kek, keks, v[0]) == Success(v[|keks|])
    decreases |keks|
  {
    if keks != [] {
      assert Rewrap(KekAt(kek, keks, 0), keks[0], v[0]) == Success(v[1]);
      forall i: nat | i < |keks[1..]|
        ensures Rewrap(KekAt(keks[0], keks[1..], i), keks[1..][i], v[1..][i]) == Success(v[1..][i + 1])
      {
        assert KekAt(keks[0], keks[1..], i) == KekAt(kek, keks, i + 1);
      }
      RewrapChain(keks[0], keks[1..], v[1..]);
    }
  }

  /** Along any list of keys the result is the direct wrapping of the original key under the last one. */
  lemma RewrapIsDirectWrap(kek: Cipher, keks: seq<Cipher>, p: seq<bv8>)
    requires Permutation(kek) && LegalPlaintext(p)
    requires forall k <- keks :: Permutation(k)
    ensures RewrapAll(kek, keks, WrapBytes(kek, p)) == Success(WrapBytes(KekAt(kek, keks, |keks|), p))
  {
    var v := seq(|keks| + 1, i requires 0 <= i <= |keks| => WrapBytes(KekAt(kek, keks, i), p));
    forall i: nat | i < |keks| ensures Rewrap(KekAt(kek, keks, i), keks[i], v[i]) == Success(v[i + 1]) {
      assert i > 0 ==> keks[i - 1] in keks;
      RewrapOnce(KekAt(kek, keks, i), keks[i], p);
    }
    RewrapChain(kek, keks, v);
  }

  // ---------------------------------------------------------------------------
  // How it is computed
  // ---------------------------------------------------------------------------

  lemma AivIsIv()
    ensures Store(AIV) == IV && Load(IV) == AIV
  {
  }

  /** `A ^= bswap64(t)` on the integer that holds the register's octets. */
  function MixWord(a: Semi, t: nat): Semi { Store(Load(a) ^ ByteSwap(Word(t))) }

  /** The rounds as the code carries them out. */
  function AesCode(c: Cipher): Primitives<Semi> {
    Primitives((a: Semi, b: Semi) => EncryptPair(c, a, b), (a: Semi, b: Semi) => DecryptPair(c, a, b),
               (a: Semi, t: nat) => MixWord(a, t))
  }

  /** The integer arithmetic of the code is the octet-wise XOR of RFC 3394. */
  lemma MixAgrees(a: Semi, t: nat)
    ensures MixWord(a, t) == Mix(a, t)
  {
    SwappedXor(a, Word(t));
    WordReversed(t);
  }

  lemma SameMixing(c: Cipher)
    ensures forall a: Semi, k: nat :: AesCode(c).mix(a, k) == Aes(c).mix(a, k)
  {
    forall a: Semi, k: nat ensures AesCode(c).mix(a, k) == Aes(c).mix(a, k) {
      MixAgrees(a, k);
    }
  }

  lemma CodeFollowsRfc(c: Cipher, s: Regs<Semi>, t: nat)
    requires s.r != []
    ensures WrapSteps<Semi>(AesCode(c), s, t) == WrapSteps<Semi>(Aes(c), s, t)
    ensures UnwrapSteps<Semi>(AesCode(c), s, t) == UnwrapSteps<Semi>(Aes(c), s, t)
  {
    SameMixing(c);
    SamePrimitives<Semi>(AesCode(c), Aes(c), s, t);
  }

  /** The key material as a buffer of semi-blocks. */
  method ToBuffer(s: seq<bv8>) returns (buffer: array<Semi>)
    requires |s| % 8 == 0
    ensures fresh(buffer) && buffer[..] == Split(s)
  {
    var cells := Split(s);
    buffer := new Semi[|cells|](k requires 0 <= k < |cells| => cells[k]);
  }

  /** `KeyWrap::wrap` computes the RFC 3394 wrapping, and refuses exactly the illegal sizes. */
  method WrapKey(c: Cipher, p: seq<bv8>) returns (r: Result<seq<bv8>>)
    ensures r == Wrap(c, p)
    ensures r.Failure? <==> |p| < 16 || |p| % 8 != 0
  {
    if |p| < 16 || |p| % 8 != 0 {
      return Failure("Plaintext key size must be a multiple of 8 bytes and >= 16 bytes");
    }
    var buffer := ToBuffer(p);
    var start := Store(AIV);
    AivIsIv();
    var a := WrapLoops(AesCode(c), buffer, start);
    CodeFollowsRfc(c, Start(p), |Start(p).r| * 6);
    return Success(a + Join(buffer[..]));
  }

  /** `KeyWrap::unwrap` computes the inverse and fails exactly on an illegal size or a wrong check value. */
  method UnwrapKey(c: Cipher, w: seq<bv8>) returns (r: Result<seq<bv8>>)
    ensures r == Unwrap(c, w)
    ensures |w| < 24 || |w| % 8 != 0 ==> r.Failure?
  {
    if |w| < 24 || |w| % 8 != 0 {
      return Failure("Ciphertext key size must be a multiple of 8 bytes and >= 24 bytes");
    }
    var buffer := ToBuffer(w[8..]);
    var a := UnwrapLoops(AesCode(c), buffer, w[..8]);
    CodeFollowsRfc(c, Received(w), |Received(w).r| * 6);
    assert Load(a) == AIV <==> a == IV by {
      StoreLoad(a);
      AivIsIv();
    }
    if Load(a) != AIV {
      return Failure("CRITICAL SECURITY ERROR: Integrity verification failed.");
    }
    return Success(Join(buffer[..]));
  }
}
