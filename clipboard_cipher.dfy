/** The clipboard history's at-rest cipher: a key stretched by repeated SHA-256, a keystream made
    by extending the key with SHA-256 of itself and mixing in a 16-byte IV, and an HMAC-SHA-256
    tag (RFC 2104) over IV and ciphertext. SHA-256 and HMAC are parameters: any functions
    returning 32 bytes. Texts are stored as their UTF-8 bytes. */
module ClipboardCipher {
  import opened Utf8

  type Digest = d: bytes | |d| == 32 witness seq(32, i => 0)
  type Iv = v: bytes | |v| == 16 witness seq(16, i => 0)

  /** QCryptographicHash::hash(_, Sha256). */
  type Hash = bytes -> Digest
  /** QMessageAuthenticationCode::hash(message, key, Sha256). */
  type Mac = (bytes, bytes) -> Digest

  const DeriveRounds: nat := 10000
  const MacSize: nat := 32
  const IvSize: nat := 16
  /** A sealed text is at least the tag and the IV long. */
  const HeaderSize: nat := MacSize + IvSize

  // ---------------------------------------------------------------- key derivation

  /** `h` applied `n` times to `x`. */
  function Iterate(h: Hash, x: bytes, n: nat): bytes {
    if n == 0 then x else h(Iterate(h, x, n - 1))
  }

  lemma IterateIsDigest(h: Hash, x: bytes, n: nat)
    requires n > 0
    ensures |Iterate(h, x, n)| == 32
  {
  }

  /** Clipboard::deriveKey: the password and salt, hashed 10000 times. */
  method DeriveKey(h: Hash, password: bytes, salt: bytes) returns (key: bytes)
    ensures key == Iterate(h, password + salt, DeriveRounds)
    ensures |key| == 32
  {
    key := password + salt;
    var i := 0;
    while i < DeriveRounds
      invariant 0 <= i <= DeriveRounds
      invariant key == Iterate(h, password + salt, i)
      decreases DeriveRounds - i
    {
      key := h(key);
      i := i + 1;
    }
    IterateIsDigest(h, password + salt, DeriveRounds);
  }

  // ---------------------------------------------------------------- keystream

  /** The key grown by SHA-256 of itself until it is at least `n` bytes long. */
  function Extended(h: Hash, key: bytes, n: nat): (r: bytes)
    ensures |r| >= n && |r| >= |key| && r[..|key|] == key
    decreases n - |key|
  {
    if |key| >= n then key
    else
      var longer := key + h(key);
      var r := Extended(h, longer, n);
      assert r[..|longer|][..|key|] == key;
      r
  }

  /** The key-growing loop of encrypt and decrypt. */
  method ExtendKey(h: Hash, key: bytes, n: nat) returns (r: bytes)
    ensures r == Extended(h, key, n)
  {
    r := key;
    while |r| < n
      invariant Extended(h, r, n) == Extended(h, key, n)
      decreases n - |r|
    {
      r := r + h(r);
    }
  }

  /** 2 to the power n. */
  function Pow2(n: nat): (p: nat)
    ensures p >= 1
  {
    if n == 0 then 1 else 2 * Pow2(n - 1)
  }

  /** Bitwise exclusive or of the low `n` bits of `a` and `b`, lowest bit first. */
  function XorBits(a: nat, b: nat, n: nat): (r: nat)
    ensures r < Pow2(n)
  {
    if n == 0 then 0
    else (if a % 2 == b % 2 then 0 else 1) + 2 * XorBits(a / 2, b / 2, n - 1)
  }

  /** XOR-ing the low `n` bits with the same value twice gives them back. */
  lemma {:induction false} XorBitsTwice(a: nat, k: nat, n: nat)
    requires a < Pow2(n)
    ensures XorBits(XorBits(a, k, n), k, n) == a
  {
    if n > 0 {
      var low := if a % 2 == k % 2 then 0 else 1;
      var x := XorBits(a, k, n);
      var rest := XorBits(a / 2, k / 2, n - 1);
      assert x == low + 2 * rest;
      assert x % 2 == low && x / 2 == rest;
      XorBitsTwice(a / 2, k / 2, n - 1);
    }
  }

  /** Bitwise exclusive or of two bytes. */
  function XorByte(a: byte, b: byte): byte {
    assert Pow2(8) == 256;
    XorBits(a, b, 8)
  }

  /** XOR-ing with the same byte twice gives the byte back. */
  lemma XorByteTwice(a: byte, k: byte)
    ensures XorByte(XorByte(a, k), k) == a
  {
    assert Pow2(8) == 256;
    XorBitsTwice(a, k, 8);
  }

  /** The keystream byte for position i: key byte i XOR-ed with IV byte i mod 16. */
  function StreamByte(key: bytes, iv: Iv, i: nat): byte
    requires i < |key|
  {
    XorByte(key[i], iv[i % IvSize])
  }

  /** Byte i of the data XOR-ed with key byte i and IV byte i mod 16. */
  function Xor(data: bytes, key: bytes, iv: Iv): (r: bytes)
    requires |key| >= |data|
    ensures |r| == |data|
    ensures forall i :: 0 <= i < |data| ==> r[i] == XorByte(data[i], StreamByte(key, iv, i))
  {
    seq(|data|, i requires 0 <= i < |data| => XorByte(data[i], StreamByte(key, iv, i)))
  }

  /** The same keystream undoes itself. */
  lemma XorTwice(data: bytes, key: bytes, iv: Iv)
    requires |key| >= |data|
    ensures Xor(Xor(data, key, iv), key, iv) == data
  {
    var once := Xor(data, key, iv);
    var twice := Xor(once, key, iv);
    forall i | 0 <= i < |data| ensures twice[i] == data[i] {
      XorByteTwice(data[i], StreamByte(key, iv, i));
    }
  }

  /** The XOR loop of encrypt and decrypt. */
  method Cipher(data: bytes, key: bytes, iv: Iv) returns (result: bytes)
    requires |key| >= |data|
    ensures result == Xor(data, key, iv)
  {
    result := [];
    var i := 0;
    while i < |data|
      invariant 0 <= i <= |data|
      invariant |result| == i
      invariant forall j :: 0 <= j < i ==> result[j] == XorByte(data[j], StreamByte(key, iv, j))
      decreases |data| - i
    {
      var keyByte := XorByte(key[i], iv[i % IvSize]);
      result := result + [XorByte(data[i], keyByte)];
      i := i + 1;
    }
  }

  // ---------------------------------------------------------------- sealing and opening

  /** What Clipboard::encrypt stores: the plain UTF-8 when encryption is off or the text is
      empty, otherwise tag, IV and ciphertext. */
  function Seal(h: Hash, mac: Mac, key: bytes, enabled: bool, iv: Iv, plain: string): bytes {
    if !enabled || plain == [] then Encode(plain)
    else
      var data := Encode(plain);
      var body := iv + Xor(data, Extended(h, key, |data|), iv);
      mac(body, key) + body
  }

  /** What Clipboard::decrypt reads back. Whatever fails (encryption off, empty or short input,
      a tag that does not match) falls back to reading the bytes as UTF-8. */
  function Open(h: Hash, mac: Mac, key: bytes, enabled: bool, blob: bytes): string {
    if !enabled || blob == [] || |blob| < HeaderSize then Decode(blob)
    else
      var tag := blob[..MacSize];
      var body := blob[MacSize..];
      if tag != mac(body, key) then Decode(blob)
      else
        var iv: Iv := body[..IvSize];
        var data := body[IvSize..];
        Decode(Xor(data, Extended(h, key, |data|), iv))
  }

  /** Clipboard::encrypt, with the IV drawn by the caller. */
  method Encrypt(h: Hash, mac: Mac, key: bytes, enabled: bool, iv: Iv, plain: string) returns (sealed: bytes)
    ensures sealed == Seal(h, mac, key, enabled, iv, plain)
  {
    if !enabled || plain == [] {
      return Encode(plain);
    }
    var data := Encode(plain);
    var stream := ExtendKey(h, key, |data|);
    var result := Cipher(data, stream, iv);
    var encrypted := iv + result;
    var tag := mac(encrypted, key);
    sealed := tag + encrypted;
  }

  /** Clipboard::decrypt. */
  method Decrypt(h: Hash, mac: Mac, key: bytes, enabled: bool, blob: bytes) returns (plain: string)
    ensures plain == Open(h, mac, key, enabled, blob)
  {
    if !enabled || blob == [] {
      return Decode(blob);
    }
    if |blob| < HeaderSize {
      return Decode(blob);
    }
    var tag := blob[..MacSize];
    var encrypted := blob[MacSize..];
    if tag != mac(encrypted, key) {
      return Decode(blob);
    }
    var iv: Iv := encrypted[..IvSize];
    var data := encrypted[IvSize..];
    var stream := ExtendKey(h, key, |data|);
    var result := Cipher(data, stream, iv);
    plain := Decode(result);
  }

  /** A sealed non-empty text is tag, IV and one ciphertext byte per UTF-8 byte, and the tag is
      the HMAC of the rest under the key. */
  lemma SealShape(h: Hash, mac: Mac, key: bytes, iv: Iv, plain: string)
    requires plain != []
    ensures var s := Seal(h, mac, key, true, iv, plain);
      |s| == HeaderSize + |Encode(plain)| && s[..MacSize] == mac(s[MacSize..], key)
      && s[MacSize..HeaderSize] == iv
  {
    var s := Seal(h, mac, key, true, iv, plain);
    var data := Encode(plain);
    var body := iv + Xor(data, Extended(h, key, |data|), iv);
    assert s == mac(body, key) + body;
    assert s[MacSize..] == body;
  }

  /** Opening what was sealed under the same key and setting gives the text back, for every key,
      IV, hash and MAC, except that fromUtf8 drops a leading U+FEFF. */
  lemma OpenSeal(h: Hash, mac: Mac, key: bytes, enabled: bool, iv: Iv, plain: string)
    ensures Open(h, mac, key, enabled, Seal(h, mac, key, enabled, iv, plain)) == DropBom(plain)
    ensures !LeadsWithBom(plain) ==> Open(h, mac, key, enabled, Seal(h, mac, key, enabled, iv, plain)) == plain
  {
    DecodeEncode(plain);
    if enabled && plain != [] {
      var data := Encode(plain);
      var stream := Extended(h, key, |data|);
      var body := iv + Xor(data, stream, iv);
      var s := mac(body, key) + body;
      assert s == Seal(h, mac, key, enabled, iv, plain);
      assert s[..MacSize] == mac(body, key) && s[MacSize..] == body;
      assert body[..IvSize] == iv && body[IvSize..] == Xor(data, stream, iv);
      XorTwice(data, stream, iv);
    }
  }

  /** Decryption never fails: input shorter than the header, or with a tag that does not match,
      reads as its UTF-8 text; so text stored unencrypted and shorter than 48 bytes reads back
      after encryption is turned on, less a leading U+FEFF. */
  lemma OpenFallback(h: Hash, mac: Mac, key: bytes, blob: bytes)
    ensures |blob| < HeaderSize ==> Open(h, mac, key, true, blob) == Decode(blob)
    ensures |blob| >= HeaderSize && blob[..MacSize] != mac(blob[MacSize..], key) ==>
      Open(h, mac, key, true, blob) == Decode(blob)
    ensures forall s: string :: |Encode(s)| < HeaderSize ==> Open(h, mac, key, true, Encode(s)) == DropBom(s)
  {
    forall s: string | |Encode(s)| < HeaderSize ensures Open(h, mac, key, true, Encode(s)) == DropBom(s) {
      DecodeEncode(s);
    }
  }
}
