/** Session encryption with counter nonces (dsm/src/communication/crypto_net.rs). */
module SecureChannel {
  import opened Common

  const TAG_SIZE := 16
  const KEY_SIZE := 32

  datatype Error = KeyLength | SealFailed | TooShort | OpenFailed

  /**
   ChaCha20-Poly1305 with a detached tag (section 2.8 of RFC 8439), left uninterpreted. Arguments
   are key, nonce, associated data, and the text (with the tag, for opening).
   */
  datatype Aead = Aead(
    seal: (Bytes, Bytes, Bytes, Bytes) -> Option<(Bytes, Bytes)>,
    open: (Bytes, Bytes, Bytes, Bytes, Bytes) -> Option<Bytes>)

  /** Sealing yields a 16-byte tag, and opening what was sealed gives the text back. */
  ghost predicate Correct(aead: Aead) {
    forall key, nonce, ad, text :: aead.seal(key, nonce, ad, text).Some? ==>
      var (sealed, tag) := aead.seal(key, nonce, ad, text).value;
      |tag| == TAG_SIZE && aead.open(key, nonce, ad, sealed, tag) == Some(text)
  }

  // ---------------------------------------------------------------- nonces

  /** `CommunicationNonce::from_u64`: two prefix bytes, two zero bytes, the counter big endian. */
  function Nonce(counter: u64): (n: Bytes)
    ensures |n| == 12
  {
    [0xC0, 0x4D, 0, 0] + BigEndian(counter, 8)
  }

  /** The layout of a nonce: the two prefix bytes, two zeros, then the counter, most significant byte first. */
  lemma {:induction false} NonceLayout(counter: u64)
    ensures Nonce(counter)[..4] == [0xC0, 0x4D, 0, 0] && FromBigEndian(Nonce(counter)[4..]) == counter
  {
    assert Nonce(counter)[4..] == BigEndian(counter, 8);
    Pow256Of8();
    BigEndianRoundTrip(counter, 8);
  }

  lemma {:induction false} NonceInjective(a: u64, b: u64)
    requires Nonce(a) == Nonce(b)
    ensures a == b
  {
    assert Nonce(a)[4..] == BigEndian(a, 8) && Nonce(b)[4..] == BigEndian(b, 8);
    U64BigEndianInjective(a, b);
  }

  /** The counter that the i-th of a series of calls sees: `fetch_add` wraps around. */
  function CounterAt(start: u64, i: nat): u64 {
    (start + i) % TWO_TO_THE_64
  }

  /** Two calls share a nonce exactly when they are a multiple of 2^64 apart, so 2^64 calls in a row never do. */
  lemma {:induction false} NoncesRepeatExactlyWhen(start: u64, i: nat, j: nat)
    requires i <= j
    ensures Nonce(CounterAt(start, i)) == Nonce(CounterAt(start, j)) <==> (j - i) % TWO_TO_THE_64 == 0
    ensures i < j < i + TWO_TO_THE_64 ==> Nonce(CounterAt(start, i)) != Nonce(CounterAt(start, j))
  {
    if Nonce(CounterAt(start, i)) == Nonce(CounterAt(start, j)) {
      NonceInjective(CounterAt(start, i), CounterAt(start, j));
    }
    EqualRemainders(start + i, start + j);
  }

  lemma {:induction false} EqualRemainders(a: nat, b: nat)
    requires a <= b
    ensures a % TWO_TO_THE_64 == b % TWO_TO_THE_64 <==> (b - a) % TWO_TO_THE_64 == 0
  {
  }

  // ---------------------------------------------------------------- framing

  /** `KyberCryptoProvider::encrypt`: the sealed text followed by its tag. */
  function Encrypt(aead: Aead, key: Bytes, nonce: Bytes, text: Bytes, ad: Bytes): Result<Bytes, Error> {
    if |key| != KEY_SIZE then Err(KeyLength)
    else
      match aead.seal(key, nonce, ad, text)
      case None => Err(SealFailed)
      case Some((sealed, tag)) => Ok(sealed + tag)
  }

  /** `KyberCryptoProvider::decrypt`: the last 16 bytes are the tag. */
  function Decrypt(aead: Aead, key: Bytes, nonce: Bytes, cipher: Bytes, ad: Bytes): Result<Bytes, Error> {
    if |key| != KEY_SIZE then Err(KeyLength)
    else if |cipher| < TAG_SIZE then Err(TooShort)
    else
      var split := |cipher| - TAG_SIZE;
      match aead.open(key, nonce, ad, cipher[..split], cipher[split..])
      case None => Err(OpenFailed)
      case Some(text) => Ok(text)
  }

  lemma {:induction false} DecryptUndoesEncrypt(aead: Aead, key: Bytes, nonce: Bytes, text: Bytes, ad: Bytes)
    requires Correct(aead) && Encrypt(aead, key, nonce, text, ad).Ok?
    ensures Decrypt(aead, key, nonce, Encrypt(aead, key, nonce, text, ad).value, ad) == Ok(text)
  {
    var (sealed, tag) := aead.seal(key, nonce, ad, text).value;
    var cipher := sealed + tag;
    assert cipher[..|cipher| - TAG_SIZE] == sealed && cipher[|cipher| - TAG_SIZE..] == tag;
  }

  /** What `decrypt` answers on a text and its 16-byte tag: the cipher decides, on all of its inputs. */
  lemma {:induction false} DecryptsExactlyWhen(aead: Aead, key: Bytes, nonce: Bytes, sealed: Bytes, tag: Bytes,
                                               ad: Bytes)
    requires |tag| == TAG_SIZE
    ensures Decrypt(aead, key, nonce, sealed + tag, ad) ==
            if |key| != KEY_SIZE then Err(KeyLength)
            else if aead.open(key, nonce, ad, sealed, tag).None? then Err(OpenFailed)
            else Ok(aead.open(key, nonce, ad, sealed, tag).value)
    ensures forall short: Bytes :: |short| < TAG_SIZE ==> Decrypt(aead, key, nonce, short, ad).Err?
  {
    var cipher := sealed + tag;
    assert cipher[..|cipher| - TAG_SIZE] == sealed && cipher[|cipher| - TAG_SIZE..] == tag;
  }

  /**
   Key, nonce and associated data are all authenticated: a packet that the cipher sealed under one
   triple is refused under any other under which the cipher does not open it.
   */
  lemma {:induction false} OtherInputsAreRefused(aead: Aead, key: Bytes, nonce: Bytes, ad: Bytes, text: Bytes,
                                                 key': Bytes, nonce': Bytes, ad': Bytes)
    requires Correct(aead) && |key| == KEY_SIZE && aead.seal(key, nonce, ad, text).Some?
    requires var (sealed, tag) := aead.seal(key, nonce, ad, text).value;
             aead.open(key', nonce', ad', sealed, tag).None?
    ensures Encrypt(aead, key, nonce, text, ad).Ok?
    ensures Decrypt(aead, key', nonce', Encrypt(aead, key, nonce, text, ad).value, ad').Err?
  {
    var (sealed, tag) := aead.seal(key, nonce, ad, text).value;
    DecryptsExactlyWhen(aead, key', nonce', sealed, tag, ad');
  }

  /** `encrypt` fails on a key of another length or when the cipher fails, and otherwise appends the tag. */
  lemma {:induction false} EncryptsExactlyWhen(aead: Aead, key: Bytes, nonce: Bytes, text: Bytes, ad: Bytes)
    ensures Encrypt(aead, key, nonce, text, ad).Ok? <==> |key| == KEY_SIZE && aead.seal(key, nonce, ad, text).Some?
    ensures Encrypt(aead, key, nonce, text, ad).Ok? ==>
              var (sealed, tag) := aead.seal(key, nonce, ad, text).value;
              var cipher := Encrypt(aead, key, nonce, text, ad).value;
              cipher[..|sealed|] == sealed && cipher[|sealed|..] == tag
  {
  }

  // ---------------------------------------------------------------- the session object

  class SessionEncryption {
    const aead: Aead
    const sharedSecret: Bytes
    var outgoing: u64
    var incoming: u64

    constructor (aead: Aead, secret: Bytes)
      ensures this.aead == aead && sharedSecret == secret && outgoing == 0 && incoming == 0
    {
      this.aead, sharedSecret, outgoing, incoming := aead, secret, 0, 0;
    }

    /** Every call consumes one nonce, also one that fails. */
    method Seal(text: Bytes, ad: Bytes) returns (r: Result<Bytes, Error>)
      modifies this`outgoing
      ensures outgoing == CounterAt(old(outgoing), 1)
      ensures r == Encrypt(aead, sharedSecret, Nonce(old(outgoing)), text, ad)
    {
      var value := outgoing;
      outgoing := (outgoing + 1) % TWO_TO_THE_64;
      r := Encrypt(aead, sharedSecret, Nonce(value), text, ad);
    }

    method Open(cipher: Bytes, ad: Bytes) returns (r: Result<Bytes, Error>)
      modifies this`incoming
      ensures incoming == CounterAt(old(incoming), 1)
      ensures r == Decrypt(aead, sharedSecret, Nonce(old(incoming)), cipher, ad)
    {
      var value := incoming;
      incoming := (incoming + 1) % TWO_TO_THE_64;
      r := Decrypt(aead, sharedSecret, Nonce(value), cipher, ad);
    }
  }

  // ---------------------------------------------------------------- one direction of a channel

  datatype Message = Message(text: Bytes, ad: Bytes)

  datatype Packet = Packet(cipher: Bytes, ad: Bytes)

  /** The results of a series of `encrypt` calls. */
  function EncryptAll(aead: Aead, key: Bytes, counter: u64, messages: seq<Message>): (r: seq<Result<Bytes, Error>>)
    ensures |r| == |messages|
    decreases |messages|
  {
    if messages == [] then []
    else [Encrypt(aead, key, Nonce(counter), messages[0].text, messages[0].ad)]
         + EncryptAll(aead, key, CounterAt(counter, 1), messages[1..])
  }

  /** The results of a series of `decrypt` calls on whatever arrives. */
  function DecryptAll(aead: Aead, key: Bytes, counter: u64, packets: seq<Packet>): (r: seq<Result<Bytes, Error>>)
    ensures |r| == |packets|
    decreases |packets|
  {
    if packets == [] then []
    else [Decrypt(aead, key, Nonce(counter), packets[0].cipher, packets[0].ad)]
         + DecryptAll(aead, key, CounterAt(counter, 1), packets[1..])
  }

  lemma {:induction false} CounterSteps(counter: u64, i: nat)
    requires i > 0
    ensures CounterAt(CounterAt(counter, 1), i - 1) == CounterAt(counter, i)
  {
    if counter + 1 == TWO_TO_THE_64 {
      EqualRemainders(i - 1, counter + i);
    }
  }

  lemma {:induction false} EncryptAllAt(aead: Aead, key: Bytes, counter: u64, messages: seq<Message>, i: nat)
    requires i < |messages|
    ensures EncryptAll(aead, key, counter, messages)[i] ==
            Encrypt(aead, key, Nonce(CounterAt(counter, i)), messages[i].text, messages[i].ad)
    decreases |messages|
  {
    if i == 0 {
      assert CounterAt(counter, 0) == counter;
    } else {
      CounterSteps(counter, i);
      hide CounterAt, Encrypt, Nonce;
      EncryptAllAt(aead, key, CounterAt(counter, 1), messages[1..], i - 1);
      assert EncryptAll(aead, key, counter, messages)[i] ==
        EncryptAll(aead, key, CounterAt(counter, 1), messages[1..])[i - 1];
    }
  }

  lemma {:induction false} DecryptAllAt(aead: Aead, key: Bytes, counter: u64, packets: seq<Packet>, i: nat)
    requires i < |packets|
    ensures DecryptAll(aead, key, counter, packets)[i] ==
            Decrypt(aead, key, Nonce(CounterAt(counter, i)), packets[i].cipher, packets[i].ad)
    decreases |packets|
  {
    if i == 0 {
      assert CounterAt(counter, 0) == counter;
    } else {
      CounterSteps(counter, i);
      hide CounterAt, Decrypt, Nonce;
      DecryptAllAt(aead, key, CounterAt(counter, 1), packets[1..], i - 1);
      assert DecryptAll(aead, key, counter, packets)[i] ==
        DecryptAll(aead, key, CounterAt(counter, 1), packets[1..])[i - 1];
    }
  }

  /** The i-th `encrypt` call succeeded and this is its packet. */
  ghost predicate IsSent(aead: Aead, key: Bytes, messages: seq<Message>, i: nat, p: Packet) {
    i < |messages| && EncryptAll(aead, key, 0, messages)[i] == Ok(p.cipher) && p.ad == messages[i].ad
  }

  /**
   The i-th packet of a sender opens at the i-th `decrypt` call of anyone who holds the secret and
   counts from 0, whatever else arrived before.
   */
  lemma {:induction false} SentOpensAtItsTurn(aead: Aead, key: Bytes, messages: seq<Message>, delivered: seq<Packet>,
                                              i: nat)
    requires Correct(aead) && i < |delivered| && i < TWO_TO_THE_64
    requires IsSent(aead, key, messages, i, delivered[i])
    ensures DecryptAll(aead, key, 0, delivered)[i] == Ok(messages[i].text)
  {
    assert CounterAt(0, i) == i;
    hide CounterAt, Encrypt, Decrypt, Nonce, EncryptAll, DecryptAll, Correct;
    DecryptAllAt(aead, key, 0, delivered, i);
    EncryptAllAt(aead, key, 0, messages, i);
    DecryptUndoesEncrypt(aead, key, Nonce(i), messages[i].text, messages[i].ad);
  }

  /**
   Both ends hold one secret, one nonce prefix and counters from 0, so the directions are not
   separated: call i of one end and call j of the other share a nonce exactly when i and j are equal
   modulo 2^64, and then seal their two messages under the same key and nonce.
   */
  lemma {:induction false} EndsShareNonces(aead: Aead, key: Bytes, one: seq<Message>, other: seq<Message>, i: nat,
                                           j: nat)
    requires i < |one| && j < |other|
    ensures Nonce(CounterAt(0, i)) == Nonce(CounterAt(0, j)) <==> i % TWO_TO_THE_64 == j % TWO_TO_THE_64
    ensures i % TWO_TO_THE_64 == j % TWO_TO_THE_64 ==>
              var nonce := Nonce(i % TWO_TO_THE_64);
              && EncryptAll(aead, key, 0, one)[i] == Encrypt(aead, key, nonce, one[i].text, one[i].ad)
              && EncryptAll(aead, key, 0, other)[j] == Encrypt(aead, key, nonce, other[j].text, other[j].ad)
  {
    hide Nonce, EncryptAll, Encrypt;
    if Nonce(CounterAt(0, i)) == Nonce(CounterAt(0, j)) {
      NonceInjective(CounterAt(0, i), CounterAt(0, j));
    }
    EncryptAllAt(aead, key, 0, one, i);
    EncryptAllAt(aead, key, 0, other, j);
  }

  /** Some `encrypt` call that used this nonce produced the packet. */
  ghost predicate SentUnder(aead: Aead, key: Bytes, messages: seq<Message>, nonce: Bytes, p: Packet) {
    exists j: nat :: IsSent(aead, key, messages, j, p) && Nonce(CounterAt(0, j)) == nonce
  }

  /** The cipher itself opens the packet under the nonce, with the packet's own associated data. */
  ghost predicate CipherOpens(aead: Aead, key: Bytes, nonce: Bytes, p: Packet) {
    exists sealed, tag ::
      p.cipher == sealed + tag && |tag| == TAG_SIZE && aead.open(key, nonce, p.ad, sealed, tag).Some?
  }

  lemma {:induction false} DecryptedIsOpened(aead: Aead, key: Bytes, nonce: Bytes, p: Packet)
    requires Decrypt(aead, key, nonce, p.cipher, p.ad).Ok?
    ensures CipherOpens(aead, key, nonce, p)
  {
    var split := |p.cipher| - TAG_SIZE;
    assert p.cipher == p.cipher[..split] + p.cipher[split..];
  }

  /**
   Integrity of ciphertexts, stated of the packets that arrive in this run: one that opens under a
   nonce was sealed under that nonce by one of the two ends. The cipher promises this for nonces that
   are used once; the reuse across the two ends (`EndsShareNonces`) is outside that promise, so here it
   is a hypothesis about the run and not a consequence of the cipher.
   */
  ghost predicate NoForgery(aead: Aead, key: Bytes, peer: seq<Message>, own: seq<Message>, delivered: seq<Packet>) {
    forall k, c: u64 :: 0 <= k < |delivered| && CipherOpens(aead, key, Nonce(c), delivered[k]) ==>
      SentUnder(aead, key, peer, Nonce(c), delivered[k]) || SentUnder(aead, key, own, Nonce(c), delivered[k])
  }

  /** Nonces identify calls, so what was sealed under the i-th nonce came from the i-th call. */
  lemma {:induction false} NonceNamesTheCall(aead: Aead, key: Bytes, messages: seq<Message>, i: u64, p: Packet)
    requires |messages| <= TWO_TO_THE_64 && SentUnder(aead, key, messages, Nonce(i), p)
    ensures IsSent(aead, key, messages, i, p)
  {
    hide Nonce, EncryptAll;
    var j: nat :| IsSent(aead, key, messages, j, p) && Nonce(CounterAt(0, j)) == Nonce(i);
    NonceInjective(CounterAt(0, j), i);
  }

  /**
   Whatever is delivered and in whatever order, an end's i-th `decrypt` call succeeds exactly on the
   i-th packet of its peer or on its own i-th packet, and returns that packet's text. Failed calls
   count on both sides.
   */
  lemma {:induction false} OpensExactlyAtItsTurn(aead: Aead, key: Bytes, peer: seq<Message>, own: seq<Message>,
                                                 delivered: seq<Packet>, i: nat)
    requires Correct(aead) && NoForgery(aead, key, peer, own, delivered)
    requires i < |delivered| && i < TWO_TO_THE_64 && |peer| <= TWO_TO_THE_64 && |own| <= TWO_TO_THE_64
    ensures DecryptAll(aead, key, 0, delivered)[i].Ok? <==>
            IsSent(aead, key, peer, i, delivered[i]) || IsSent(aead, key, own, i, delivered[i])
    ensures IsSent(aead, key, peer, i, delivered[i]) ==> DecryptAll(aead, key, 0, delivered)[i] == Ok(peer[i].text)
    ensures IsSent(aead, key, own, i, delivered[i]) ==> DecryptAll(aead, key, 0, delivered)[i] == Ok(own[i].text)
  {
    assert CounterAt(0, i) == i;
    hide CounterAt, Encrypt, Decrypt, Nonce, EncryptAll, DecryptAll, Correct, SentUnder, IsSent;
    var p := delivered[i];
    DecryptAllAt(aead, key, 0, delivered, i);
    if Decrypt(aead, key, Nonce(i), p.cipher, p.ad).Ok? {
      DecryptedIsOpened(aead, key, Nonce(i), p);
      if SentUnder(aead, key, peer, Nonce(i), p) {
        NonceNamesTheCall(aead, key, peer, i, p);
      } else {
        NonceNamesTheCall(aead, key, own, i, p);
      }
    }
    if IsSent(aead, key, peer, i, p) {
      IsSentInside(aead, key, peer, i, p);
      SentOpensAtItsTurn(aead, key, peer, delivered, i);
    }
    if IsSent(aead, key, own, i, p) {
      IsSentInside(aead, key, own, i, p);
      SentOpensAtItsTurn(aead, key, own, delivered, i);
    }
  }

  lemma {:induction false} IsSentInside(aead: Aead, key: Bytes, messages: seq<Message>, i: nat, p: Packet)
    requires IsSent(aead, key, messages, i, p)
    ensures i < |messages|
  {
  }

  /** In-order delivery of a run without failures returns exactly the sent plaintexts. */
  lemma {:induction false} InOrderDelivery(aead: Aead, key: Bytes, messages: seq<Message>, delivered: seq<Packet>)
    requires Correct(aead) && |delivered| == |messages| <= TWO_TO_THE_64
    requires forall i :: 0 <= i < |messages| ==> IsSent(aead, key, messages, i, delivered[i])
    ensures forall i :: 0 <= i < |messages| ==> DecryptAll(aead, key, 0, delivered)[i] == Ok(messages[i].text)
  {
    forall i | 0 <= i < |messages| ensures DecryptAll(aead, key, 0, delivered)[i] == Ok(messages[i].text) {
      SentOpensAtItsTurn(aead, key, messages, delivered, i);
    }
  }

  /**
   One lost packet desynchronizes the direction for good: what came before it is returned, and
   every later packet arrives one turn early and fails, unless it equals the packet due at that turn
   or the receiver's own.
   */
  lemma {:induction false} LossIsPermanent(aead: Aead, key: Bytes, peer: seq<Message>, own: seq<Message>,
                                           delivered: seq<Packet>, lost: nat, i: nat)
    requires Correct(aead) && NoForgery(aead, key, peer, own, delivered)
    requires lost <= |delivered| && |delivered| + 1 == |peer| <= TWO_TO_THE_64 && |own| <= TWO_TO_THE_64
    requires forall k :: 0 <= k < |delivered| ==> IsSent(aead, key, peer, if k < lost then k else k + 1, delivered[k])
    requires i < |delivered|
    ensures i < lost ==> DecryptAll(aead, key, 0, delivered)[i] == Ok(peer[i].text)
    ensures i >= lost ==>
              (DecryptAll(aead, key, 0, delivered)[i].Ok? <==>
               || (&& EncryptAll(aead, key, 0, peer)[i] == EncryptAll(aead, key, 0, peer)[i + 1]
                   && peer[i].ad == peer[i + 1].ad)
               || IsSent(aead, key, own, i, delivered[i]))
  {
    hide EncryptAll, DecryptAll, Correct, NoForgery;
    OpensExactlyAtItsTurn(aead, key, peer, own, delivered, i);
  }
}
