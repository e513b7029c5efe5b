/** EIP-712 digests of EIP-3009 authorizations on the chains the wallet settles on. Keccak-256 is a parameter. */
module Eip712 {
  import opened Words
  import opened SpendPolicy
  import opened Statements

  type Address = b: Bytes | |b| == 20 witness Zeros(20)

  datatype Chain = Base | Ethereum | ArbitrumOne {
    function ChainId(): u64 {
      match this
      case Base => 8453
      case Ethereum => 1
      case ArbitrumOne => 42161
    }

    function UsdcContract(): Address {
      match this
      case Base => Be(0x833589fCD6eDb6E08f4c7C32D4f71b54bdA02913, 20)
      case Ethereum => Be(0xA0b86991c6218b36c1d19D4a2e9Eb0cE3606eB48, 20)
      case ArbitrumOne => Be(0xaf88d065e77c8cC2239327C5EDb3A432268e5831, 20)
    }

    function OnRail(): Rail {
      match this
      case Base => Eip3009Base
      case Ethereum => Eip3009Ethereum
      case ArbitrumOne => Eip3009Arbitrum
    }

    function DomainWords(K: Hash): seq<Bytes32> {
      hide DomainType, DomainName, DomainVersion, UsdcContract;
      [K(DomainType()), K(DomainName()), K(DomainVersion()), PadLeft32(Be(ChainId(), 8)), PadLeft32(UsdcContract())]
    }

    method DomainSeparator(K: Hash) returns (d: Bytes32)
      ensures d == K(Join(DomainWords(K)))
    {
      hide DomainType, DomainName, DomainVersion, PadLeft32, Be, UsdcContract, Join;
      var buf := EncodeDomain(K(DomainType()), K(DomainName()), K(DomainVersion()), PadLeft32(Be(ChainId(), 8)), PadLeft32(UsdcContract()));
      return K(buf);
    }
  }

  function DomainName(): Bytes { Ascii("USD Coin") }
  function DomainVersion(): Bytes { Ascii("2") }

  function DomainType(): Bytes {
    Ascii("EIP712Domain(string name,") + Ascii("string version,") + Ascii("uint256 chainId,") + Ascii("address verifyingContract)")
  }

  function TransferType(): Bytes {
    Ascii("TransferWithAuthorization(") + Ascii("address from,") + Ascii("address to,") + Ascii("uint256 value,")
    + Ascii("uint256 validAfter,") + Ascii("uint256 validBefore,") + Ascii("bytes32 nonce)")
  }

  // ── ABI words ──────────────────────────────────────────────────────────────

  function PadLeft32(b: Bytes): Bytes32
    requires |b| <= 32
  {
    Zeros(32 - |b|) + b
  }

  lemma PadLeft32Injective(a: Bytes, b: Bytes)
    requires |a| == |b| <= 32 && PadLeft32(a) == PadLeft32(b)
    ensures a == b
  {
    assert PadLeft32(a)[32 - |a|..] == a;
    assert PadLeft32(b)[32 - |b|..] == b;
  }

  function Join(words: seq<Bytes32>): (b: Bytes)
    ensures |b| == 32 * |words|
  {
    if words == [] then [] else words[0] + Join(words[1..])
  }

  /** Fixed-width words leave one way to cut the text up again. */
  lemma {:induction false} JoinInjective(v: seq<Bytes32>, w: seq<Bytes32>)
    requires Join(v) == Join(w)
    ensures v == w
  {
    if v != [] {
      assert |w| == |v|;
      assert Join(v)[..32] == v[0] && Join(w)[..32] == w[0];
      assert Join(v)[32..] == Join(v[1..]) && Join(w)[32..] == Join(w[1..]);
      JoinInjective(v[1..], w[1..]);
      assert v == [v[0]] + v[1..] && w == [w[0]] + w[1..];
    }
  }

  /** Words are appended one at a time. */
  lemma {:induction false} JoinNext(words: seq<Bytes32>, k: nat)
    requires k < |words|
    ensures Join(words[..k + 1]) == Join(words[..k]) + words[k]
  {
    if k == 0 {
      assert words[..1][1..] == [];
    } else {
      assert words[..k + 1][1..] == words[1..][..k] && words[..k][1..] == words[1..][..k - 1];
      JoinNext(words[1..], k - 1);
    }
  }

  /** Append word `k` to the encoding of the words before it. */
  method PushWord(buf: Bytes, w: Bytes32, ghost words: seq<Bytes32>, ghost k: nat) returns (r: Bytes)
    requires k < |words| && w == words[k] && buf == Join(words[..k])
    ensures r == Join(words[..k + 1])
  {
    JoinNext(words, k);
    r := Extend(buf, w);
  }

  method EncodeDomain(typeHash: Bytes32, name: Bytes32, version: Bytes32, chainId: Bytes32, verifyingContract: Bytes32) returns (buf: Bytes)
    ensures buf == Join([typeHash, name, version, chainId, verifyingContract])
  {
    ghost var words := [typeHash, name, version, chainId, verifyingContract];
    buf := PushWord([], typeHash, words, 0);
    buf := PushWord(buf, name, words, 1);
    buf := PushWord(buf, version, words, 2);
    buf := PushWord(buf, chainId, words, 3);
    buf := PushWord(buf, verifyingContract, words, 4);
    assert words[..5] == words;
  }

  // ── Authorizations ─────────────────────────────────────────────────────────

  /** An EIP-3009 `transferWithAuthorization` message. */
  datatype Authorization = Authorization(
    from: Address, to: Address, value: u128, validAfter: u64, validBefore: u64, nonce: Bytes32)
  {
    function EncodeData(K: Hash): seq<Bytes32> {
      hide TransferType;
      [K(TransferType()), PadLeft32(from), PadLeft32(to), PadLeft32(Be(value, 16)), PadLeft32(Be(validAfter, 8)),
       PadLeft32(Be(validBefore, 8)), nonce]
    }

    function DigestPreimage(K: Hash, chain: Chain): Bytes {
      [0x19, 0x01] + (K(Join(chain.DomainWords(K))) + K(Join(EncodeData(K))))
    }

    /** The digest the external wallet signs. */
    function Digest(K: Hash, chain: Chain): Bytes32 { K(DigestPreimage(K, chain)) }

    method StructHash(K: Hash) returns (h: Bytes32)
      ensures h == K(Join(EncodeData(K)))
    {
      hide TransferType, PadLeft32, Be;
      ghost var words := EncodeData(K);
      assert Join(words[..0]) == [];
      hide Join;
      var buf := PushWord([], K(TransferType()), words, 0);
      buf := PushWord(buf, PadLeft32(from), words, 1);
      buf := PushWord(buf, PadLeft32(to), words, 2);
      buf := PushWord(buf, PadLeft32(Be(value, 16)), words, 3);
      buf := PushWord(buf, PadLeft32(Be(validAfter, 8)), words, 4);
      buf := PushWord(buf, PadLeft32(Be(validBefore, 8)), words, 5);
      buf := PushWord(buf, nonce, words, 6);
      assert words[..7] == words;
      return K(buf);
    }

    method Eip712Digest(K: Hash, chain: Chain) returns (d: Bytes32)
      ensures d == Digest(K, chain)
    {
      hide DomainType, DomainName, DomainVersion, TransferType, PadLeft32, Be, Chain.UsdcContract, Join;
      var domainSeparator := chain.DomainSeparator(K);
      var structHash := StructHash(K);
      var buf := Extend([0x19, 0x01], domainSeparator);
      buf := Extend(buf, structHash);
      assert buf == DigestPreimage(K, chain);
      return K(buf);
    }
  }

  /** What a digest binds: every field of the authorization and the chain, unless Keccak collides on one of the
      three pairs of pre-images the two digests are built from. */
  lemma DigestBindsTheAuthorization(K: Hash, a: Authorization, c: Chain, b: Authorization, d: Chain)
    requires a.Digest(K, c) == b.Digest(K, d)
    ensures (a == b && c == d)
         || Collision(K, a.DigestPreimage(K, c), b.DigestPreimage(K, d))
         || Collision(K, Join(c.DomainWords(K)), Join(d.DomainWords(K)))
         || Collision(K, Join(a.EncodeData(K)), Join(b.EncodeData(K)))
  {
    hide Join, Authorization.EncodeData, Chain.DomainWords;
    if a.DigestPreimage(K, c) == b.DigestPreimage(K, d) {
      DigestsAreCutApart(K(Join(c.DomainWords(K))), K(Join(a.EncodeData(K))), K(Join(d.DomainWords(K))), K(Join(b.EncodeData(K))));
      if Join(c.DomainWords(K)) == Join(d.DomainWords(K)) && Join(a.EncodeData(K)) == Join(b.EncodeData(K)) {
        DomainWordsBindTheChain(K, c, d);
        EncodeDataBindsTheFields(K, a, b);
      }
    }
  }

  lemma DigestsAreCutApart(a: Bytes32, b: Bytes32, c: Bytes32, d: Bytes32)
    requires [0x19, 0x01] + (a + b) == [0x19, 0x01] + (c + d)
    ensures a == c && b == d
  {
    var p: Bytes, q: Bytes := [0x19, 0x01] + (a + b), [0x19, 0x01] + (c + d);
    assert p[2..34] == a && q[2..34] == c;
    assert p[34..] == b && q[34..] == d;
  }

  lemma DomainWordsBindTheChain(K: Hash, c: Chain, d: Chain)
    requires Join(c.DomainWords(K)) == Join(d.DomainWords(K))
    ensures c == d
  {
    hide Join, PadLeft32, Be, Chain.UsdcContract, DomainType, DomainName, DomainVersion;
    JoinInjective(c.DomainWords(K), d.DomainWords(K));
    assert c.DomainWords(K)[3] == d.DomainWords(K)[3];
    PadLeft32Injective(Be(c.ChainId(), 8), Be(d.ChainId(), 8));
    BeInjective64(c.ChainId(), d.ChainId());
  }

  lemma EncodeDataBindsTheFields(K: Hash, a: Authorization, b: Authorization)
    requires Join(a.EncodeData(K)) == Join(b.EncodeData(K))
    ensures a == b
  {
    hide Join, PadLeft32, Be, TransferType;
    JoinInjective(a.EncodeData(K), b.EncodeData(K));
    var v, w := a.EncodeData(K), b.EncodeData(K);
    assert v[1] == w[1] && v[2] == w[2] && v[3] == w[3] && v[4] == w[4] && v[5] == w[5] && v[6] == w[6];
    PadLeft32Injective(a.from, b.from);
    PadLeft32Injective(a.to, b.to);
    PadLeft32Injective(Be(a.value, 16), Be(b.value, 16));
    PadLeft32Injective(Be(a.validAfter, 8), Be(b.validAfter, 8));
    PadLeft32Injective(Be(a.validBefore, 8), Be(b.validBefore, 8));
    BeInjective64(a.validAfter, b.validAfter);
    BeInjective64(a.validBefore, b.validBefore);
    WordSizes();
    BeRoundTrip(a.value, 16);
    BeRoundTrip(b.value, 16);
  }

  lemma BeInjective64(v: u64, w: u64)
    requires Be(v, 8) == Be(w, 8)
    ensures v == w
  {
    WordSizes();
    BeRoundTrip(v, 8);
    BeRoundTrip(w, 8);
  }

  // ── The texts, read at their EIP-712 offsets ───────────────────────────────

  /** Word `k` of a text of 32-byte words. */
  function WordAt(text: Bytes, k: nat): Bytes32
    requires 32 * k + 32 <= |text|
  {
    text[32 * k..32 * k + 32]
  }

  lemma {:induction false} WordsAreWhereTheyWerePut(words: seq<Bytes32>, k: nat)
    requires k < |words|
    ensures WordAt(Join(words), k) == words[k]
  {
    var text, rest := Join(words), Join(words[1..]);
    assert text[..32] == words[0] && text[32..] == rest;
    if k > 0 {
      WordsAreWhereTheyWerePut(words[1..], k - 1);
      assert text[32 * k..32 * k + 32] == rest[32 * (k - 1)..32 * (k - 1) + 32];
    }
  }

  /** A `uint256` word, as a number. */
  function Uint256(word: Bytes32): nat { FromBe(word) }

  /** An `address` word: twelve zero bytes and the address. */
  predicate IsAddressWord(word: Bytes32, address: Address) {
    word[..12] == Zeros(12) && word[12..] == address
  }

  lemma {:induction false} LeadingZerosAddNothing(n: nat, b: Bytes)
    ensures FromBe(Zeros(n) + b) == FromBe(b)
  {
    if b == [] {
      assert Zeros(n) + b == Zeros(n);
      ZerosAreZero(n);
    } else {
      var init := b[..|b| - 1];
      assert (Zeros(n) + b)[..n + |b| - 1] == Zeros(n) + init;
      LeadingZerosAddNothing(n, init);
    }
  }

  lemma {:induction false} ZerosAreZero(n: nat)
    ensures FromBe(Zeros(n)) == 0
  {
    if n > 0 {
      assert Zeros(n)[..n - 1] == Zeros(n - 1);
      ZerosAreZero(n - 1);
    }
  }

  lemma PaddedNumbersRead(v: nat, n: nat)
    requires n <= 32 && v < Pow256(n)
    ensures Uint256(PadLeft32(Be(v, n))) == v
  {
    LeadingZerosAddNothing(32 - n, Be(v, n));
    BeRoundTrip(v, n);
  }

  lemma PaddedAddressesRead(a: Address)
    ensures IsAddressWord(PadLeft32(a), a)
  {
    assert PadLeft32(a)[..12] == Zeros(12) && PadLeft32(a)[12..] == a;
  }

  lemma AsciiJoins(s: string, t: string, u: string)
    requires s + t == u
    ensures Ascii(s) + Ascii(t) == Ascii(u)
  {
  }

  lemma TransferTypeParties()
    ensures Ascii("TransferWithAuthorization(") + Ascii("address from,") + Ascii("address to,")
         == Ascii("TransferWithAuthorization(address from,address to,")
  {
    hide Ascii;
    AsciiJoins("TransferWithAuthorization(", "address from,", "TransferWithAuthorization(address from,");
    AsciiJoins("TransferWithAuthorization(address from,", "address to,", "TransferWithAuthorization(address from,address to,");
  }

  lemma TransferTypeTimes()
    ensures Ascii("uint256 validAfter,") + Ascii("uint256 validBefore,") == Ascii("uint256 validAfter,uint256 validBefore,")
  {
    hide Ascii;
    AsciiJoins("uint256 validAfter,", "uint256 validBefore,", "uint256 validAfter,uint256 validBefore,");
  }

  /** The text behind the authorization's type hash, in full. */
  lemma TransferTypeText()
    ensures TransferType() == Ascii("TransferWithAuthorization(address from,address to,") + Ascii("uint256 value,")
                              + Ascii("uint256 validAfter,uint256 validBefore,") + Ascii("bytes32 nonce)")
  {
    TransferTypeParties();
    TransferTypeTimes();
    hide Ascii;
    var parties := Ascii("TransferWithAuthorization(") + Ascii("address from,") + Ascii("address to,");
    Regrouped(parties + Ascii("uint256 value,"), Ascii("uint256 validAfter,"), Ascii("uint256 validBefore,"), Ascii("bytes32 nonce)"));
  }

  lemma Regrouped(a: Bytes, b: Bytes, c: Bytes, d: Bytes)
    ensures a + b + c + d == a + (b + c) + d
  {
  }

  lemma DomainTypeStrings()
    ensures Ascii("EIP712Domain(string name,") + Ascii("string version,") == Ascii("EIP712Domain(string name,string version,")
  {
    hide Ascii;
    AsciiJoins("EIP712Domain(string name,", "string version,", "EIP712Domain(string name,string version,");
  }

  lemma DomainTypePlace()
    ensures Ascii("uint256 chainId,") + Ascii("address verifyingContract)") == Ascii("uint256 chainId,address verifyingContract)")
  {
    hide Ascii;
    AsciiJoins("uint256 chainId,", "address verifyingContract)", "uint256 chainId,address verifyingContract)");
  }

  /** The texts behind the domain's three hashes, in full. */
  lemma DomainTexts()
    ensures DomainType() == Ascii("EIP712Domain(string name,string version,") + Ascii("uint256 chainId,address verifyingContract)")
    ensures DomainName() == Ascii("USD Coin") && DomainVersion() == Ascii("2")
  {
    DomainTypeStrings();
    DomainTypePlace();
    hide Ascii;
    var head := Ascii("EIP712Domain(string name,") + Ascii("string version,");
    AppendAssoc(head, Ascii("uint256 chainId,"), Ascii("address verifyingContract)"));
  }

  /** EIP-712's encodeData of an authorization: the type, payer, payee, amount, the two times and the nonce, each in its
      own word, in the type's order. */
  predicate IsEncodedAuthorization(K: Hash, a: Authorization, text: Bytes) {
    hide TransferType;
    && |text| == 7 * 32
    && WordAt(text, 0) == K(TransferType())
    && IsAddressWord(WordAt(text, 1), a.from) && IsAddressWord(WordAt(text, 2), a.to)
    && Uint256(WordAt(text, 3)) == a.value
    && Uint256(WordAt(text, 4)) == a.validAfter && Uint256(WordAt(text, 5)) == a.validBefore
    && WordAt(text, 6) == a.nonce
  }

  lemma EncodedAuthorization(K: Hash, a: Authorization)
    ensures IsEncodedAuthorization(K, a, Join(a.EncodeData(K)))
  {
    hide TransferType, Join, PadLeft32, Be, WordAt, IsAddressWord, Uint256;
    var words := a.EncodeData(K);
    forall k | 0 <= k < 7
      ensures WordAt(Join(words), k) == words[k]
    {
      WordsAreWhereTheyWerePut(words, k);
    }
    PaddedAddressesRead(a.from);
    PaddedAddressesRead(a.to);
    WordSizes();
    PaddedNumbersRead(a.value, 16);
    PaddedNumbersRead(a.validAfter, 8);
    PaddedNumbersRead(a.validBefore, 8);
  }

  /** The three chains: EIP-155 id, the USDC contract as a number, and the rail. */
  predicate IsListed(c: Chain, id: nat, contract: nat, rail: Rail) {
    c.ChainId() == id && FromBe(c.UsdcContract()) == contract && c.OnRail() == rail
  }

  lemma ChainTable()
    ensures IsListed(Base, 8453, 0x833589fCD6eDb6E08f4c7C32D4f71b54bdA02913, Eip3009Base)
    ensures IsListed(Ethereum, 1, 0xA0b86991c6218b36c1d19D4a2e9Eb0cE3606eB48, Eip3009Ethereum)
    ensures IsListed(ArbitrumOne, 42161, 0xaf88d065e77c8cC2239327C5EDb3A432268e5831, Eip3009Arbitrum)
  {
    hide Be, FromBe, Pow256;
    AddressesFit();
    BeRoundTrip(0x833589fCD6eDb6E08f4c7C32D4f71b54bdA02913, 20);
    BeRoundTrip(0xA0b86991c6218b36c1d19D4a2e9Eb0cE3606eB48, 20);
    BeRoundTrip(0xaf88d065e77c8cC2239327C5EDb3A432268e5831, 20);
  }

  lemma AddressesFit()
    ensures Pow256(20) == 0x1_0000_0000_0000_0000_0000_0000_0000_0000_0000_0000
  {
    WordSizes();
    assert Pow256(20) == 256 * (256 * (256 * (256 * Pow256(16))));
  }

  /** EIP-712's encodeData of a chain's domain: type, name, version, chain id and verifying contract. */
  predicate IsEncodedDomain(K: Hash, c: Chain, text: Bytes) {
    hide DomainType, DomainName, DomainVersion, Chain.UsdcContract;
    && |text| == 5 * 32
    && WordAt(text, 0) == K(DomainType()) && WordAt(text, 1) == K(DomainName()) && WordAt(text, 2) == K(DomainVersion())
    && Uint256(WordAt(text, 3)) == c.ChainId() && IsAddressWord(WordAt(text, 4), c.UsdcContract())
  }

  lemma EncodedDomain(K: Hash, c: Chain)
    ensures IsEncodedDomain(K, c, Join(c.DomainWords(K)))
  {
    hide DomainType, DomainName, DomainVersion, Join, PadLeft32, Be, WordAt, IsAddressWord, Uint256, Chain.UsdcContract;
    var words := c.DomainWords(K);
    forall k | 0 <= k < 5
      ensures WordAt(Join(words), k) == words[k]
    {
      WordsAreWhereTheyWerePut(words, k);
    }
    PaddedAddressesRead(c.UsdcContract());
    WordSizes();
    PaddedNumbersRead(c.ChainId(), 8);
  }

  /** A digest's own pre-image: 0x19, 0x01, the hash of an encoded domain and the hash of an encoded authorization. */
  ghost predicate IsDigestText(K: Hash, a: Authorization, c: Chain, text: Bytes) {
    hide IsEncodedDomain, IsEncodedAuthorization;
    && |text| == 66 && text[0] == 0x19 && text[1] == 0x01
    && exists domain, struct :: IsEncodedDomain(K, c, domain) && IsEncodedAuthorization(K, a, struct)
                                && text[2..34] == K(domain) && text[34..66] == K(struct)
  }

  /** What the external wallet signs and a human approves is the EIP-712 digest of the authorization on its chain, read
      field by field from the text that is hashed. */
  lemma DigestsAreOfTheirAuthorization(K: Hash, a: Authorization, c: Chain)
    ensures exists text :: IsDigestText(K, a, c, text) && a.Digest(K, c) == K(text)
  {
    hide Join, Authorization.EncodeData, Chain.DomainWords, IsEncodedDomain, IsEncodedAuthorization;
    EncodedAuthorization(K, a);
    EncodedDomain(K, c);
    PrefixedHashes(K(Join(c.DomainWords(K))), K(Join(a.EncodeData(K))));
    assert IsDigestText(K, a, c, a.DigestPreimage(K, c));
  }

  lemma PrefixedHashes(domain: Bytes32, struct: Bytes32)
    ensures var text := [0x19, 0x01] + (domain + struct);
            |text| == 66 && text[0] == 0x19 && text[1] == 0x01 && text[2..34] == domain && text[34..66] == struct
  {
  }
}
