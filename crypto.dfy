/**
 * The encryption envelope of the integrity monitor (src/crypto.rs): the
 * length-fit that turns a passphrase into a ChaCha20-Poly1305 key, the
 * wrapping nonce counter, and the order of steps in which a record is
 * sealed into a file and opened again.  The cipher (ring's seal and open)
 * and the serialiser (bincode's encode and decode) are foreign code; they
 * enter the model as function-typed parameters that may fail.
 */
module Crypto {
  import opened Wrappers

  /** One octet. */
  type Byte = b: int | 0 <= b < 256

  /** ChaCha20-Poly1305 key length in bytes (section 2.8 of RFC 8439). */
  const KEY_LEN: nat := 32
  /** ChaCha20-Poly1305 nonce length in bytes: 96 bits. */
  const NONCE_LEN: nat := 12
  /** Width of the Rust `u128` counter in bytes. */
  const U128_BYTES: nat := 16
  /** `(1u128 << 96) - 1`, the largest counter value that is kept. */
  const MAX_COUNTER: nat := 0xFFFF_FFFF_FFFF_FFFF_FFFF_FFFF

  // ---------------------------------------------------------------------
  // Arithmetic helpers
  // ---------------------------------------------------------------------

  lemma MulAtLeast(k: int, n: int)
    requires k >= 1 && n > 0
    ensures k * n >= n
  {
  }

  /** Euclidean division has exactly one quotient and remainder. */
  lemma DivModUnique(j: int, n: int, a: int, r: int)
    requires n > 0 && 0 <= r < n && j == a * n + r
    ensures j % n == r && j / n == a
  {
    var q, m := j / n, j % n;
    assert (a - q) * n == m - r;
    if a > q {
      MulAtLeast(a - q, n);
    } else if a < q {
      MulAtLeast(q - a, n);
    }
  }

  // ---------------------------------------------------------------------
  // Key length-fit (get_compatible_passphrase)
  // ---------------------------------------------------------------------

  /**
   * The key derived from a passphrase: the passphrase repeated cyclically,
   * or cut, to exactly `keyLen` bytes.  An empty passphrase has nothing to
   * repeat and gives the empty key, which the cipher refuses.
   */
  function LengthFit(passphrase: seq<Byte>, keyLen: nat): (key: seq<Byte>)
    ensures passphrase != [] ==> |key| == keyLen
    ensures passphrase == [] ==> key == []
  {
    if passphrase == [] then []
    else seq(keyLen, i requires 0 <= i < keyLen => passphrase[i % |passphrase|])
  }

  /** A passphrase at least as long as the key is cut to its first `keyLen` bytes. */
  lemma LengthFitOfLongPassphrase(passphrase: seq<Byte>, keyLen: nat)
    requires keyLen <= |passphrase|
    ensures LengthFit(passphrase, keyLen) == passphrase[..keyLen]
    ensures |passphrase| == keyLen ==> LengthFit(passphrase, keyLen) == passphrase
  {
    forall i | 0 <= i < keyLen
      ensures LengthFit(passphrase, keyLen)[i] == passphrase[i]
    {
      DivModUnique(i, |passphrase|, 0, i);
    }
  }

  /** Reducing modulo a multiple of `n` first does not change the remainder modulo `n`. */
  lemma ModOfRepetition(i: nat, n: nat, c: nat)
    requires n > 0 && c > 0
    ensures (i % (c * n)) % n == i % n
  {
    var m := c * n;
    var a, r := i / m, i % m;
    var b, r' := r / n, r % n;
    assert i == (a * c + b) * n + r' by {
      assert i == a * m + r;
      assert r == b * n + r';
      assert a * m == (a * c) * n;
    }
    DivModUnique(i, n, a * c + b, r');
  }

  /** Byte `i` of the key is the same for a passphrase and for a repetition of it. */
  lemma RepetitionSharesKeyByte(p: seq<Byte>, q: seq<Byte>, keyLen: nat, i: nat)
    requires p != [] && |p| <= |q|
    requires forall j :: 0 <= j < |q| ==> q[j] == p[j % |p|]
    requires |q| % |p| == 0 || keyLen <= |q|
    requires i < keyLen
    ensures q[i % |q|] == p[i % |p|]
  {
    var n, m := |p|, |q|;
    if keyLen <= m {
      DivModUnique(i, m, 0, i);
    } else {
      var c := m / n;
      assert c * n == m by {
        assert m == c * n + m % n;
      }
      ModOfRepetition(i, n, c);
      assert q[i % m] == p[(i % m) % n];
    }
  }

  /**
   * Two passphrases of which the longer repeats the shorter derive the same
   * key, when the longer is a whole number of repetitions or is at least as
   * long as the key ("abc" and "abcabc...").
   */
  lemma RepetitionsShareKey(p: seq<Byte>, q: seq<Byte>, keyLen: nat)
    requires p != [] && |p| <= |q|
    requires forall i :: 0 <= i < |q| ==> q[i] == p[i % |p|]
    requires |q| % |p| == 0 || keyLen <= |q|
    ensures LengthFit(q, keyLen) == LengthFit(p, keyLen)
  {
    forall i | 0 <= i < keyLen
      ensures LengthFit(q, keyLen)[i] == LengthFit(p, keyLen)[i]
    {
      RepetitionSharesKeyByte(p, q, keyLen, i);
    }
  }

  /**
   * One pass of the extension loop of get_compatible_passphrase as written:
   * append the first `nl` bytes, `nl` being the original length or what is
   * missing to the key length, whichever is smaller.
   */
  function ExtendStep(s: seq<Byte>, origLen: nat, keyLen: nat): (t: seq<Byte>)
    requires origLen <= |s| < keyLen
    ensures |s| <= |t| <= keyLen
    ensures |t| > |s| <==> origLen > 0
  {
    var nl := if |s| + origLen < keyLen then origLen else keyLen - |s|;
    s + s[..nl]
  }

  /**
   * The extension loop as written (`while s.len() != key_len`), run for at
   * most `fuel` passes: the value of `s` when the loop has left or the fuel
   * is spent.
   */
  function ExtendLoop(s: seq<Byte>, origLen: nat, keyLen: nat, fuel: nat): (t: seq<Byte>)
    requires origLen <= |s| <= keyLen
    ensures |s| <= |t| <= keyLen
    decreases fuel
  {
    if fuel == 0 || |s| == keyLen then s
    else ExtendLoop(ExtendStep(s, origLen, keyLen), origLen, keyLen, fuel - 1)
  }

  /**
   * With an empty passphrase every pass appends nothing, so after any number
   * of passes `s` is still empty and the loop guard `s.len() != key_len`
   * still holds: the loop as written never ends.
   */
  lemma {:induction false} EmptyPassphraseLoopsForever(keyLen: nat, fuel: nat)
    requires keyLen > 0
    ensures ExtendLoop([], 0, keyLen, fuel) == []
    ensures |ExtendLoop([], 0, keyLen, fuel)| != keyLen
  {
    if fuel > 0 {
      EmptyPassphraseLoopsForever(keyLen, fuel - 1);
    }
  }

  /** One pass keeps `s` a cyclic repetition of the passphrase and makes progress. */
  lemma ExtendStepKeepsPattern(p: seq<Byte>, s: seq<Byte>, reps: nat, keyLen: nat)
    requires 0 < |p| <= |s| < keyLen
    requires |s| == reps * |p|
    requires forall i :: 0 <= i < |s| ==> s[i] == p[i % |p|]
    ensures var t := ExtendStep(s, |p|, keyLen);
      && |s| < |t| <= keyLen
      && (|t| == keyLen || |t| == (reps + 1) * |p|)
      && forall i :: 0 <= i < |t| ==> t[i] == p[i % |p|]
  {
    var n := |p|;
    var t := ExtendStep(s, n, keyLen);
    forall i | |s| <= i < |t|
      ensures t[i] == p[i % n]
    {
      DivModUnique(i - |s|, n, 0, i - |s|);
      DivModUnique(i, n, reps, i - |s|);
    }
  }

  /**
   * For a non-empty passphrase shorter than the key, the loop as written
   * ends within `keyLen` passes with the length-fit key.
   */
  lemma {:induction false} ExtendLoopFits(p: seq<Byte>, s: seq<Byte>, reps: nat, keyLen: nat, fuel: nat)
    requires 0 < |p| <= |s| <= keyLen
    requires |s| == keyLen || |s| == reps * |p|
    requires forall i :: 0 <= i < |s| ==> s[i] == p[i % |p|]
    requires keyLen - |s| <= fuel
    ensures ExtendLoop(s, |p|, keyLen, fuel) == LengthFit(p, keyLen)
    decreases fuel
  {
    if |s| == keyLen {
      assert s == LengthFit(p, keyLen);
    } else {
      ExtendStepKeepsPattern(p, s, reps, keyLen);
      ExtendLoopFits(p, ExtendStep(s, |p|, keyLen), reps + 1, keyLen, fuel - 1);
    }
  }

  /**
   * get_compatible_passphrase as written and the corrected
   * GetCompatiblePassphrase agree on every non-empty passphrase.
   */
  lemma AsWrittenAgreesOnNonEmpty(p: seq<Byte>, keyLen: nat)
    requires 0 < |p| < keyLen
    ensures ExtendLoop(p, |p|, keyLen, keyLen) == LengthFit(p, keyLen)
  {
    ExtendLoopFits(p, p, 1, keyLen, keyLen);
  }

  /**
   * get_compatible_passphrase, with the extension loop entered only for a
   * non-empty passphrase.  The empty passphrase stays empty (the code as
   * written loops forever on it, see EmptyPassphraseLoopsForever).
   */
  method GetCompatiblePassphrase(passphrase: seq<Byte>, keyLen: nat) returns (s: seq<Byte>)
    ensures s == LengthFit(passphrase, keyLen)
  {
    s := passphrase;
    var origLen := |s|;

    if origLen < keyLen {
      if origLen != 0 {
        ghost var reps: nat := 1;
        while |s| != keyLen
          invariant origLen <= |s| <= keyLen
          invariant |s| == keyLen || |s| == reps * origLen
          invariant forall i :: 0 <= i < |s| ==> s[i] == passphrase[i % origLen]
          decreases keyLen - |s|
        {
          ExtendStepKeepsPattern(passphrase, s, reps, keyLen);
          var nl := if |s| + origLen < keyLen then origLen else keyLen - |s|;
          s := s + s[..nl];
          reps := reps + 1;
        }
      }
    } else {
      s := s[..keyLen];
      LengthFitOfLongPassphrase(passphrase, keyLen);
    }
  }

  // ---------------------------------------------------------------------
  // Little-endian bytes of the counter
  // ---------------------------------------------------------------------

  function Pow256(n: nat): (p: nat)
    ensures p >= 1
  {
    if n == 0 then 1 else 256 * Pow256(n - 1)
  }

  /** The `n` lowest bytes of `x`, least significant first. */
  function LeBytes(x: nat, n: nat): (bs: seq<Byte>)
    ensures |bs| == n
  {
    if n == 0 then [] else [x % 256] + LeBytes(x / 256, n - 1)
  }

  /** The number whose little-endian bytes are `bs`. */
  function FromLe(bs: seq<Byte>): (x: nat)
    ensures x < Pow256(|bs|)
  {
    if bs == [] then 0 else bs[0] + 256 * FromLe(bs[1..])
  }

  lemma {:induction false} LeBytesRoundTrip(x: nat, n: nat)
    requires x < Pow256(n)
    ensures FromLe(LeBytes(x, n)) == x
  {
    if n > 0 {
      var bs := LeBytes(x, n);
      assert bs[1..] == LeBytes(x / 256, n - 1);
      LeBytesRoundTrip(x / 256, n - 1);
    }
  }

  lemma {:induction false} FromLeRoundTrip(bs: seq<Byte>)
    ensures LeBytes(FromLe(bs), |bs|) == bs
  {
    if bs != [] {
      var x := FromLe(bs);
      DivModUnique(x, 256, FromLe(bs[1..]), bs[0]);
      FromLeRoundTrip(bs[1..]);
    }
  }

  /** Taking the first `n` of `m` little-endian bytes gives the `n` lowest bytes. */
  lemma {:induction false} LeBytesPrefix(x: nat, m: nat, n: nat)
    requires n <= m
    ensures LeBytes(x, m)[..n] == LeBytes(x, n)
  {
    if n > 0 {
      LeBytesPrefix(x / 256, m - 1, n - 1);
    }
  }

  // ---------------------------------------------------------------------
  // FixedNonceSequence
  // ---------------------------------------------------------------------

  /** The 96-bit nonce for a counter value: its 12 low bytes, little-endian. */
  function NonceBytes(counter: nat): (nonce: seq<Byte>)
    ensures |nonce| == NONCE_LEN
  {
    LeBytes(counter, NONCE_LEN)
  }

  /** Distinct counter values in range give distinct nonces. */
  lemma NonceInjective(c: nat, d: nat)
    requires c <= MAX_COUNTER && d <= MAX_COUNTER
    requires NonceBytes(c) == NonceBytes(d)
    ensures c == d
  {
    assert Pow256(NONCE_LEN) == MAX_COUNTER + 1;
    LeBytesRoundTrip(c, NONCE_LEN);
    LeBytesRoundTrip(d, NONCE_LEN);
  }

  /** The counter after one `advance`: add one, and go back to 1 above 2^96 - 1. */
  function NextCounter(counter: nat): (next: nat)
    requires counter <= MAX_COUNTER
    ensures 1 <= next <= MAX_COUNTER
    ensures counter < MAX_COUNTER ==> next == counter + 1
  {
    if counter + 1 > MAX_COUNTER then 1 else counter + 1
  }

  /** The counter of a fresh sequence after `n` calls of `advance`. */
  function CounterAfter(n: nat): (counter: nat)
    ensures counter <= MAX_COUNTER
  {
    if n == 0 then 0 else NextCounter(CounterAfter(n - 1))
  }

  /** The counter after `n >= 1` advances is `(n - 1) mod (2^96 - 1) + 1`. */
  lemma {:induction false} CounterClosedForm(n: nat)
    requires n >= 1
    ensures CounterAfter(n) == (n - 1) % MAX_COUNTER + 1
  {
    if n > 1 {
      CounterClosedForm(n - 1);
      var a, r := (n - 2) / MAX_COUNTER, (n - 2) % MAX_COUNTER;
      if r + 1 == MAX_COUNTER {
        DivModUnique(n - 1, MAX_COUNTER, a + 1, 0);
      } else {
        DivModUnique(n - 1, MAX_COUNTER, a, r + 1);
      }
    }
  }

  /** No nonce repeats within 2^96 - 1 consecutive advances. */
  lemma NoNonceReuseWithinPeriod(i: nat, j: nat)
    requires 1 <= i < j < i + MAX_COUNTER
    ensures NonceBytes(CounterAfter(i)) != NonceBytes(CounterAfter(j))
  {
    CounterClosedForm(i);
    CounterClosedForm(j);
    var a, r := (i - 1) / MAX_COUNTER, (i - 1) % MAX_COUNTER;
    var d := j - i;
    if r + d < MAX_COUNTER {
      DivModUnique(j - 1, MAX_COUNTER, a, r + d);
    } else {
      DivModUnique(j - 1, MAX_COUNTER, a + 1, r + d - MAX_COUNTER);
    }
    if NonceBytes(CounterAfter(i)) == NonceBytes(CounterAfter(j)) {
      NonceInjective(CounterAfter(i), CounterAfter(j));
    }
  }

  /** After 2^96 - 1 advances the counter is back where it was; it is never 0 again. */
  lemma CounterPeriodic(n: nat)
    requires n >= 1
    ensures CounterAfter(n + MAX_COUNTER) == CounterAfter(n)
    ensures CounterAfter(n) != 0
  {
    CounterClosedForm(n);
    CounterClosedForm(n + MAX_COUNTER);
    DivModUnique(n - 1 + MAX_COUNTER, MAX_COUNTER, (n - 1) / MAX_COUNTER + 1, (n - 1) % MAX_COUNTER);
  }

  lemma {:induction false} LeBytesOfZero(n: nat)
    ensures LeBytes(0, n) == seq(n, _ => 0)
  {
    if n > 0 {
      LeBytesOfZero(n - 1);
    }
  }

  /** The nonce a fresh sequence hands out first: counter 1. */
  function FirstNonce(): (nonce: seq<Byte>)
    ensures nonce == [1, 0, 0, 0, 0, 0, 0, 0, 0, 0, 0, 0]
  {
    LeBytesOfZero(NONCE_LEN - 1);
    NonceBytes(CounterAfter(1))
  }

  /**
   * The copy loop of `advance`: walk the 16 little-endian bytes of the
   * counter into a zeroed 12-byte buffer, leaving at index 12.
   */
  method CopyNonceBytes(bytes: seq<Byte>) returns (nonce: seq<Byte>)
    requires |bytes| == U128_BYTES
    ensures nonce == bytes[..NONCE_LEN]
  {
    var buf := new Byte[NONCE_LEN](_ => 0);
    for i := 0 to U128_BYTES
      invariant i <= NONCE_LEN
      invariant forall k :: 0 <= k < i ==> buf[k] == bytes[k]
    {
      if i == NONCE_LEN {
        break;
      }
      buf[i] := bytes[i];
    }
    nonce := buf[..];
  }

  /** ring's nonce source for one key: a counter starting at 0. */
  class FixedNonceSequence {
    var counter: nat

    ghost predicate Valid()
      reads this
    {
      counter <= MAX_COUNTER
    }

    constructor ()
      ensures Valid() && counter == 0
    {
      counter := 0;
    }

    /**
     * `advance`: step the counter (it stays below 2^96, so the u128
     * addition never overflows) and copy the first 12 of its 16
     * little-endian bytes into the nonce buffer.
     */
    method Advance() returns (nonce: seq<Byte>)
      requires Valid()
      modifies this
      ensures Valid()
      ensures counter == NextCounter(old(counter))
      ensures nonce == NonceBytes(counter)
    {
      counter := counter + 1;

      if counter > MAX_COUNTER {
        counter := 1;
      }

      var bytes := LeBytes(counter, U128_BYTES);
      nonce := CopyNonceBytes(bytes);
      LeBytesPrefix(counter, U128_BYTES, NONCE_LEN);
    }
  }

  // ---------------------------------------------------------------------
  // save_encrypted and read_decrypted
  // ---------------------------------------------------------------------

  datatype CryptoError =
    | WrongPassphrase
    | CouldNotCreateKey
    | CouldNotEncrypt
    | EncodeError
    | DecodeError
    | IoError

  /** The AEAD seal of ring: (key, nonce, plaintext) to ciphertext || tag, or failure. */
  type Sealer = (seq<Byte>, seq<Byte>, seq<Byte>) -> Option<seq<Byte>>
  /** The AEAD open of ring: (key, nonce, ciphertext || tag) to plaintext, or failure. */
  type Opener = (seq<Byte>, seq<Byte>, seq<Byte>) -> Option<seq<Byte>>

  /** The length of the Poly1305 tag a seal appends. */
  const TAG_LEN: nat := 16

  /**
   * The buffer `open_in_place` leaves behind: the plaintext written over the
   * front of the sealed bytes, and the bytes after it (the tag) untouched.
   */
  function InPlaceBuffer(data: seq<Byte>, plain: seq<Byte>): seq<Byte> {
    if |plain| <= |data| then plain + data[|plain|..] else plain
  }

  /** The files the envelope reads and writes. */
  class Disk {
    var files: map<string, seq<Byte>>
    /** Paths at which `File::create` fails. */
    const unwritable: set<string>

    constructor (files: map<string, seq<Byte>>, unwritable: set<string>)
      ensures this.files == files && this.unwritable == unwritable
    {
      this.files := files;
      this.unwritable := unwritable;
    }
  }

  /**
   * The bytes save_encrypted writes for `obj`: its encoding sealed under the
   * length-fit key and the first nonce of a fresh sequence, or the error
   * met first on the way.
   */
  function SealedBytes<T>(obj: T, passphrase: seq<Byte>, encode: T -> Option<seq<Byte>>, seal: Sealer)
    : Result<seq<Byte>, CryptoError>
  {
    match encode(obj)
    case None => Err(EncodeError)
    case Some(data) =>
      var key := LengthFit(passphrase, KEY_LEN);
      if |key| != KEY_LEN then Err(CouldNotCreateKey)
      else
        match seal(key, FirstNonce(), data)
        case None => Err(CouldNotEncrypt)
        case Some(sealed) => Ok(sealed)
  }

  /** What save_encrypted returns. */
  function SaveOutcome<T>(obj: T, outfile: string, passphrase: seq<Byte>, encode: T -> Option<seq<Byte>>,
                          seal: Sealer, unwritable: set<string>): Result<(), CryptoError>
  {
    match SealedBytes(obj, passphrase, encode, seal)
    case Err(e) => Err(e)
    case Ok(_) => if outfile in unwritable then Err(IoError) else Ok(())
  }

  /** What read_decrypted returns for the file contents `file` (None: it cannot be read). */
  function OpenedValue<T>(file: Option<seq<Byte>>, passphrase: seq<Byte>, open: Opener,
                          decode: seq<Byte> -> Option<T>): Result<T, CryptoError>
  {
    var key := LengthFit(passphrase, KEY_LEN);
    if |key| != KEY_LEN then Err(CouldNotCreateKey)
    else
      match file
      case None => Err(IoError)
      case Some(data) =>
        match open(key, FirstNonce(), data)
        case None => Err(WrongPassphrase)
        case Some(plain) =>
          match decode(InPlaceBuffer(data, plain))
          case None => Err(DecodeError)
          case Some(v) => Ok(v)
  }

  /**
   * save_encrypted: encode, derive the key, build a fresh nonce sequence,
   * seal (which draws one nonce), and only then create and write the file.
   */
  method SaveEncrypted<T>(obj: T, outfile: string, passphrase: seq<Byte>, encode: T -> Option<seq<Byte>>,
                          seal: Sealer, disk: Disk) returns (r: Result<(), CryptoError>)
    modifies disk
    ensures r == SaveOutcome(obj, outfile, passphrase, encode, seal, disk.unwritable)
    ensures disk.files == if r.Ok? then old(disk.files)[outfile := SealedBytes(obj, passphrase, encode, seal).value]
                          else old(disk.files)
  {
    var data := encode(obj);
    if data.None? {
      return Err(EncodeError);
    }

    var compPassphrase := GetCompatiblePassphrase(passphrase, KEY_LEN);

    var nonces := new FixedNonceSequence();
    if |compPassphrase| != KEY_LEN {
      return Err(CouldNotCreateKey);
    }

    var nonce := nonces.Advance();
    var sealed := seal(compPassphrase, nonce, data.value);
    if sealed.None? {
      return Err(CouldNotEncrypt);
    }

    if outfile in disk.unwritable {
      return Err(IoError);
    }
    disk.files := disk.files[outfile := sealed.value];
    r := Ok(());
  }

  /**
   * read_decrypted: derive the key and a fresh nonce sequence, read the
   * whole file, open it in place (drawing one nonce) and decode the whole
   * buffer, which still ends in the tag bytes.
   */
  method ReadDecrypted<T>(infile: string, passphrase: seq<Byte>, open: Opener, decode: seq<Byte> -> Option<T>,
                          disk: Disk) returns (r: Result<T, CryptoError>)
    ensures r == OpenedValue(if infile in disk.files then Some(disk.files[infile]) else None, passphrase, open, decode)
  {
    var compPassphrase := GetCompatiblePassphrase(passphrase, KEY_LEN);
    var nonces := new FixedNonceSequence();
    if |compPassphrase| != KEY_LEN {
      return Err(CouldNotCreateKey);
    }

    if infile !in disk.files {
      return Err(IoError);
    }
    var data := disk.files[infile];

    var nonce := nonces.Advance();
    var plain := open(compPassphrase, nonce, data);
    if plain.None? {
      return Err(WrongPassphrase);
    }

    data := InPlaceBuffer(data, plain.value);
    var value := decode(data);
    if value.None? {
      return Err(DecodeError);
    }
    r := Ok(value.value);
  }

  /**
   * What save_encrypted writes, read_decrypted gives back — under the same
   * passphrase or any other with the same length-fit key — provided the
   * cipher's open inverts its seal, a seal appends a tag of TAG_LEN bytes,
   * and decoding an encoding ignores TAG_LEN trailing bytes, since the
   * decoded buffer still ends in the tag.
   */
  lemma EnvelopeRoundTrip<T>(obj: T, p: seq<Byte>, q: seq<Byte>, encode: T -> Option<seq<Byte>>,
                             decode: seq<Byte> -> Option<T>, seal: Sealer, open: Opener, sealed: seq<Byte>)
    requires forall x, t :: encode(x).Some? && |t| == TAG_LEN ==> decode(encode(x).value + t) == Some(x)
    requires forall k, n, m :: seal(k, n, m).Some? ==>
      |seal(k, n, m).value| == |m| + TAG_LEN && open(k, n, seal(k, n, m).value) == Some(m)
    requires LengthFit(q, KEY_LEN) == LengthFit(p, KEY_LEN)
    requires SealedBytes(obj, p, encode, seal) == Ok(sealed)
    ensures OpenedValue(Some(sealed), q, open, decode) == Ok(obj)
  {
    var m := encode(obj).value;
    var tag := sealed[|m|..];
    assert |tag| == TAG_LEN;
    assert InPlaceBuffer(sealed, m) == m + tag;
    assert decode(m + tag) == Some(obj);
  }

  /** With an empty passphrase neither saving nor opening gets past key creation. */
  lemma EmptyPassphraseRejected<T>(obj: T, file: Option<seq<Byte>>, encode: T -> Option<seq<Byte>>,
                                   decode: seq<Byte> -> Option<T>, seal: Sealer, open: Opener)
    requires encode(obj).Some?
    ensures SealedBytes(obj, [], encode, seal) == Err(CouldNotCreateKey)
    ensures OpenedValue(file, [], open, decode) == Err(CouldNotCreateKey)
  {
  }
}
