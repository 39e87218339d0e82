/**
 The vault file format (src/persistence/vault_format.h) as `Vault::save` writes it and the opening
 constructor and `load` read it (src/persistence/vault.cpp). Key derivation and AES-GCM are parameters.
 */
module VaultImage {
  import opened Wrappers
  import opened Bytes
  import opened LittleEndian
  import opened Widths

  const MAGIC: Bytes := [0x56, 0x48, 0x53, 0x4D, 0x56, 0x41, 0x55, 0x4C]
  const VERSION: nat := 1
  const ITERATIONS: nat := 600000
  const HEADER: nat := 68
  /** Sizes in memory are 64-bit. */
  type File = f: Bytes | |f| < U64

  datatype Image = Image(salt: Bytes, iterations: nat, nonce: Bytes, tag: Bytes, ciphertext: Bytes)

  predicate WellFormed(img: Image) {
    |img.salt| == 16 && img.iterations < U32 && |img.nonce| == 12 && |img.tag| == 16 && HEADER + |img.ciphertext| < U64
  }

  /** The parts of a file in order. */
  function Assemble(version: Bytes, salt: Bytes, iterations: Bytes, nonce: Bytes, tag: Bytes, length: Bytes,
                    ciphertext: Bytes)
    : Bytes
  {
    MAGIC + (version + (salt + (iterations + (nonce + (tag + (length + ciphertext))))))
  }

  function Build(img: Image): (f: File)
    requires WellFormed(img)
    ensures |f| == HEADER + |img.ciphertext|
  {
    Assemble(Put(VERSION, 4), img.salt, Put(img.iterations, 4), img.nonce, img.tag,
             Put(|img.ciphertext|, 8), img.ciphertext)
  }

  /** The opening constructor refuses a zero iteration count; `load` does not look at it. */
  datatype Reader = Opening | Loading

  function Parse(raw: File, reader: Reader): Result<Image> {
    if |raw| < HEADER then Failure("too short")
    else if raw[..8] != MAGIC then Failure("bad magic")
    else if Get(raw[8..12]) != VERSION then Failure("unsupported version")
    else if reader == Opening && Get(raw[28..32]) == 0 then Failure("invalid iteration count")
    else if |raw| != (HEADER + Get(raw[60..68])) % U64 then Failure("length mismatch")
    else Success(Image(raw[12..28], Get(raw[28..32]), raw[32..44], raw[44..60], raw[68..]))
  }

  lemma Powers()
    ensures Pow256(4) == U32 && Pow256(8) == U64
  {
  }

  /** Where each part lies. */
  lemma Layout(version: Bytes, salt: Bytes, iterations: Bytes, nonce: Bytes, tag: Bytes, length: Bytes,
               ciphertext: Bytes)
    requires |version| == 4 && |salt| == 16 && |iterations| == 4 && |nonce| == 12 && |tag| == 16 && |length| == 8
    ensures var f := Assemble(version, salt, iterations, nonce, tag, length, ciphertext);
            && |f| == HEADER + |ciphertext| && f[..8] == MAGIC && f[8..12] == version && f[12..28] == salt
            && f[28..32] == iterations && f[32..44] == nonce && f[44..60] == tag
            && f[60..68] == length && f[68..] == ciphertext
  {
    Peel(MAGIC, version + (salt + (iterations + (nonce + (tag + (length + ciphertext))))), 8);
    var f := Assemble(version, salt, iterations, nonce, tag, length, ciphertext);
    Deeper(f, 8, version, salt + (iterations + (nonce + (tag + (length + ciphertext)))));
    Deeper(f, 12, salt, iterations + (nonce + (tag + (length + ciphertext))));
    Deeper(f, 28, iterations, nonce + (tag + (length + ciphertext)));
    Deeper(f, 32, nonce, tag + (length + ciphertext));
    Deeper(f, 44, tag, length + ciphertext);
    Deeper(f, 60, length, ciphertext);
  }

  /** Parsing what was built gives it back; only the opening constructor minds a zero iteration count. */
  lemma ParseBuild(img: Image, reader: Reader)
    requires WellFormed(img)
    ensures Parse(Build(img), reader)
         == if reader == Opening && img.iterations == 0 then Failure("invalid iteration count") else Success(img)
  {
    Powers();
    GetPut(VERSION, 4);
    GetPut(img.iterations, 4);
    GetPut(|img.ciphertext|, 8);
    Layout(Put(VERSION, 4), img.salt, Put(img.iterations, 4), img.nonce, img.tag,
           Put(|img.ciphertext|, 8), img.ciphertext);
  }

  /** A file that is accepted is exactly the image of what was read from it: no two files read the same. */
  lemma BuildParse(raw: File, reader: Reader)
    requires Parse(raw, reader).Success?
    ensures WellFormed(Parse(raw, reader).value) && Build(Parse(raw, reader).value) == raw
  {
    Powers();
    var img := Parse(raw, reader).value;
    PutGet(raw[8..12]);
    PutGet(raw[28..32]);
    PutGet(raw[60..68]);
    LengthIsHonest(|raw|, Get(raw[60..68]));
    Cut(raw);
  }

  /** The 64-bit sum of header and ciphertext length cannot wrap around to the size of a real file. */
  lemma LengthIsHonest(size: nat, length: nat)
    requires HEADER <= size < U64 && length < U64 && size == (HEADER + length) % U64
    ensures size == HEADER + length
  {
  }

  lemma Cut(f: Bytes)
    requires |f| >= HEADER && f[..8] == MAGIC
    ensures f == Assemble(f[8..12], f[12..28], f[28..32], f[32..44], f[44..60], f[60..68], f[68..])
  {
    assert f[60..] == f[60..68] + f[68..];
    assert f[44..] == f[44..60] + f[60..];
    assert f[32..] == f[32..44] + f[44..];
    assert f[28..] == f[28..32] + f[32..];
    assert f[12..] == f[12..28] + f[28..];
    assert f[8..] == f[8..12] + f[12..];
    assert f == f[..8] + f[8..];
  }

  // ---------------------------------------------------------------------------
  // Sealing a payload
  // ---------------------------------------------------------------------------

  type Key = Bytes

  /**
   PBKDF2 over password, salt and iterations; AES-GCM over key, nonce and plaintext or over key, nonce, tag and
   ciphertext.
   */
  datatype Crypto = Crypto(
    derive: (string, Bytes, nat) -> Key,
    encrypt: (Key, Bytes, Bytes) -> (Bytes, Bytes),
    decrypt: (Key, Bytes, Bytes, Bytes) -> Option<Bytes>)

  ghost predicate Sealing(c: Crypto) {
    && (forall k: Key, n: Bytes, p: Bytes :: |c.encrypt(k, n, p).0| == |p| && |c.encrypt(k, n, p).1| == 16)
    && (forall k: Key, n: Bytes, p: Bytes :: c.decrypt(k, n, c.encrypt(k, n, p).1, c.encrypt(k, n, p).0) == Some(p))
  }

  /** Decryption accepts nothing but encryptions. */
  ghost predicate Authentic(c: Crypto) {
    forall k: Key, n: Bytes, t: Bytes, x: Bytes ::
      c.decrypt(k, n, t, x).Some? ==> c.encrypt(k, n, c.decrypt(k, n, t, x).value) == (x, t)
  }

  /** The image that `save` writes with a fresh salt and nonce. */
  function Sealed(c: Crypto, password: string, payload: Bytes, salt: Bytes, nonce: Bytes): Image {
    var (x, t) := c.encrypt(c.derive(password, salt, ITERATIONS), nonce, payload);
    Image(salt, ITERATIONS, nonce, t, x)
  }

  function Load(c: Crypto, password: string, raw: File): Result<Bytes> {
    var img :- Parse(raw, Loading);
    match c.decrypt(c.derive(password, img.salt, img.iterations), img.nonce, img.tag, img.ciphertext)
    case None => Failure("authentication failed")
    case Some(p) => Success(p)
  }

  predicate Opens(c: Crypto, password: string, raw: File) {
    var r := Parse(raw, Opening);
    r.Success? && var img := r.value;
                  c.decrypt(c.derive(password, img.salt, img.iterations), img.nonce, img.tag, img.ciphertext).Some?
  }

  /** What was saved is what is loaded, and a fresh object opens it. */
  lemma LoadSaved(c: Crypto, password: string, payload: Bytes, salt: Bytes, nonce: Bytes)
    requires Sealing(c) && |salt| == 16 && |nonce| == 12 && HEADER + |payload| < U64
    ensures var img := Sealed(c, password, payload, salt, nonce);
            WellFormed(img) && Load(c, password, Build(img)) == Success(payload) && Opens(c, password, Build(img))
  {
    var img := Sealed(c, password, payload, salt, nonce);
    ParseBuild(img, Loading);
    ParseBuild(img, Opening);
  }

  /** The saved file, octet by octet: "VHSMVAUL", version 1, 600000 iterations, the ciphertext and its length. */
  predicate LaidOut(c: Crypto, password: string, payload: Bytes, salt: Bytes, nonce: Bytes, f: Bytes) {
    var (x, t) := c.encrypt(c.derive(password, salt, 600000), nonce, payload);
    && |f| == 68 + |payload| && f[..8] == [0x56, 0x48, 0x53, 0x4D, 0x56, 0x41, 0x55, 0x4C]
    && f[8..12] == [1, 0, 0, 0] && f[12..28] == salt && f[28..32] == [0xC0, 0x27, 0x09, 0x00]
    && f[32..44] == nonce && f[44..60] == t && f[60..68] == Put(|payload|, 8) && f[68..] == x
  }

  lemma SavedLayout(c: Crypto, password: string, payload: Bytes, salt: Bytes, nonce: Bytes)
    requires Sealing(c) && |salt| == 16 && |nonce| == 12 && 68 + |payload| < U64
    ensures WellFormed(Sealed(c, password, payload, salt, nonce))
    ensures LaidOut(c, password, payload, salt, nonce, Build(Sealed(c, password, payload, salt, nonce)))
  {
    var img := Sealed(c, password, payload, salt, nonce);
    Constants();
    Layout(Put(VERSION, 4), img.salt, Put(img.iterations, 4), img.nonce, img.tag, Put(|img.ciphertext|, 8),
           img.ciphertext);
  }

  lemma Constants()
    ensures Put(1, 4) == [1, 0, 0, 0] && Put(600000, 4) == [0xC0, 0x27, 0x09, 0x00]
  {
    assert Put(0, 2) == [0, 0] && Put(9, 2) == [9, 0] && Put(9 * 256 + 0x27, 3) == [0x27, 9, 0];
  }

  /**
   With an authentic cipher, a file that loads is the image of the loaded payload under the salt, nonce and count in it.
   */
  lemma LoadedWasSealed(c: Crypto, password: string, raw: File)
    requires Authentic(c) && Load(c, password, raw).Success?
    ensures var img := Parse(raw, Loading).value;
            && WellFormed(img) && Build(img) == raw
            && c.encrypt(c.derive(password, img.salt, img.iterations), img.nonce, Load(c, password, raw).value)
               == (img.ciphertext, img.tag)
  {
    BuildParse(raw, Loading);
  }

  /** Appending part after part gives the same file. */
  lemma AppendedParts(version: Bytes, salt: Bytes, iterations: Bytes, nonce: Bytes, tag: Bytes, length: Bytes,
                      ciphertext: Bytes)
    ensures MAGIC + version + salt + iterations + nonce + tag + length + ciphertext
         == Assemble(version, salt, iterations, nonce, tag, length, ciphertext)
  {
  }

  /** The appends that build the image. */
  method BuildLoop(img: Image) returns (out: Bytes)
    requires WellFormed(img)
    ensures out == Build(img)
  {
    out := MAGIC;
    out := PutLoop(out, VERSION, 4);
    out := out + img.salt;
    out := PutLoop(out, img.iterations, 4);
    out := out + img.nonce;
    out := out + img.tag;
    out := PutLoop(out, |img.ciphertext|, 8);
    out := out + img.ciphertext;
    AppendedParts(Put(VERSION, 4), img.salt, Put(img.iterations, 4), img.nonce, img.tag,
                  Put(|img.ciphertext|, 8), img.ciphertext);
  }
}
