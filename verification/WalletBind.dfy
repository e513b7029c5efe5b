/** The wallet-bind texts: hex, decimal and JSON escaping with the readers that undo them. */
module WalletBind {
  import opened Wrappers
  import opened Words
  import opened Eip712

  // ── Hex ────────────────────────────────────────────────────────────────────

  function HexDigit(v: nat): (c: char)
    requires v < 16
  {
    if v < 10 then ('0' as int + v) as char else ('a' as int + v - 10) as char
  }

  /** Digits of either case, as `from_str_radix` reads them. */
  function HexValue(c: char): (v: Option<nat>)
    ensures v.Some? ==> v.value < 16
  {
    if '0' <= c <= '9' then Some(c as int - '0' as int)
    else if 'a' <= c <= 'f' then Some(c as int - 'a' as int + 10)
    else if 'A' <= c <= 'F' then Some(c as int - 'A' as int + 10)
    else None
  }

  function Hex(bytes: Bytes): (s: string)
    ensures |s| == 2 * |bytes|
  {
    if bytes == [] then [] else [HexDigit(bytes[0] / 16), HexDigit(bytes[0] % 16)] + Hex(bytes[1..])
  }

  method ToHexLower(bytes: Bytes) returns (s: string)
    ensures s == Hex(bytes)
  {
    s := [];
    for i := 0 to |bytes|
      invariant s + Hex(bytes[i..]) == Hex(bytes)
    {
      assert bytes[i..][1..] == bytes[i + 1..];
      var before := s;
      s := s + [HexDigit(bytes[i] / 16), HexDigit(bytes[i] % 16)];
      assert s + Hex(bytes[i + 1..]) == before + Hex(bytes[i..]);
    }
  }

  function FromHex(s: string): Option<Bytes> {
    if s == [] then Some([])
    else if |s| == 1 then None
    else
      var hi :- HexValue(s[0]);
      var lo :- HexValue(s[1]);
      var rest :- FromHex(s[2..]);
      var b: byte := hi * 16 + lo;
      Some([b] + rest)
  }

  /** Every digit is one of 0-9 and a-f. */
  lemma {:induction false} HexIsLowerCase(bytes: Bytes)
    ensures forall i :: 0 <= i < |Hex(bytes)| ==> '0' <= Hex(bytes)[i] <= '9' || 'a' <= Hex(bytes)[i] <= 'f'
  {
    if bytes != [] {
      HexIsLowerCase(bytes[1..]);
    }
  }

  lemma HexDigitRoundTrip(v: nat)
    requires v < 16
    ensures HexValue(HexDigit(v)) == Some(v)
  {
  }

  lemma {:induction false} HexRoundTrip(bytes: Bytes)
    ensures FromHex(Hex(bytes)) == Some(bytes)
  {
    if bytes != [] {
      hide HexDigit, HexValue;
      var s := Hex(bytes);
      assert s[0] == HexDigit(bytes[0] / 16) && s[1] == HexDigit(bytes[0] % 16) && s[2..] == Hex(bytes[1..]);
      HexDigitRoundTrip(bytes[0] / 16);
      HexDigitRoundTrip(bytes[0] % 16);
      HexRoundTrip(bytes[1..]);
      assert bytes == [bytes[0]] + bytes[1..];
    }
  }

  // ── Decimal ────────────────────────────────────────────────────────────────

  predicate IsDigit(c: char) { '0' <= c <= '9' }

  predicate AllDigits(s: string) { forall i :: 0 <= i < |s| ==> IsDigit(s[i]) }

  function Decimal(n: nat): (s: string)
    ensures AllDigits(s) && s != []
  {
    (if n < 10 then [] else Decimal(n / 10)) + [('0' as int + n % 10) as char]
  }

  function DecimalValue(s: string): nat
    requires AllDigits(s)
  {
    if s == [] then 0 else DecimalValue(s[..|s| - 1]) * 10 + (s[|s| - 1] as int - '0' as int)
  }

  lemma {:induction false} DecimalRoundTrip(n: nat)
    ensures DecimalValue(Decimal(n)) == n
  {
    if n >= 10 {
      assert Decimal(n)[..|Decimal(n)| - 1] == Decimal(n / 10);
      DecimalRoundTrip(n / 10);
    }
  }

  /** The longest run of digits `s` starts with, and the rest. */
  function TakeDigits(s: string): (r: (string, string))
    ensures AllDigits(r.0)
  {
    if s == [] || !IsDigit(s[0]) then ([], s) else
    var (ds, rest) := TakeDigits(s[1..]);
    ([s[0]] + ds, rest)
  }

  lemma {:induction false} TakeDigitsReads(ds: string, rest: string)
    requires AllDigits(ds) && (rest != [] ==> !IsDigit(rest[0]))
    ensures TakeDigits(ds + rest) == (ds, rest)
  {
    if ds == [] {
      assert ds + rest == rest;
    } else {
      assert (ds + rest)[1..] == ds[1..] + rest;
      TakeDigitsReads(ds[1..], rest);
      assert [ds[0]] + ds[1..] == ds;
    }
  }

  // ── JSON strings ───────────────────────────────────────────────────────────

  function EscapeChar(c: char): string {
    if c == '"' then "\\\""
    else if c == '\\' then "\\\\"
    else if c == '\n' then "\\n"
    else if c == '\r' then "\\r"
    else if c == '\t' then "\\t"
    else if c < ' ' then ['\\', 'u', '0', '0', HexDigit(c as int / 16), HexDigit(c as int % 16)]
    else [c]
  }

  function Escape(s: string): string {
    if s == [] then [] else EscapeChar(s[0]) + Escape(s[1..])
  }

  method JsonEscape(s: string) returns (out: string)
    ensures out == Escape(s)
  {
    out := [];
    for i := 0 to |s|
      invariant out + Escape(s[i..]) == Escape(s)
    {
      assert s[i..][1..] == s[i + 1..];
      var before := out;
      out := out + EscapeChar(s[i]);
      assert out + Escape(s[i + 1..]) == before + Escape(s[i..]);
    }
  }

  /** The 16-bit code unit of a `\uXXXX` escape, from its four digits. */
  function CodeUnit(s: string): Option<nat>
    requires |s| >= 4
  {
    var a :- HexValue(s[0]);
    var b :- HexValue(s[1]);
    var c :- HexValue(s[2]);
    var d :- HexValue(s[3]);
    Some(((a * 16 + b) * 16 + c) * 16 + d)
  }

  /** One character of a JSON string after its opening quote (section 7 of RFC 8259): unescaped, a two-character
      escape, `\uXXXX`, or a surrogate pair of those. */
  function ReadChar(s: string): (r: Option<(char, string)>)
    ensures r.Some? ==> |r.value.1| < |s|
  {
    if s == [] || s[0] == '"' || s[0] < ' ' then None
    else if s[0] != '\\' then Some((s[0], s[1..]))
    else if |s| < 2 then None
    else match s[1]
      case '"' => Some(('"', s[2..]))
      case '\\' => Some(('\\', s[2..]))
      case '/' => Some(('/', s[2..]))
      case 'b' => Some((8 as char, s[2..]))
      case 'f' => Some((12 as char, s[2..]))
      case 'n' => Some(('\n', s[2..]))
      case 'r' => Some(('\r', s[2..]))
      case 't' => Some(('\t', s[2..]))
      case 'u' => ReadUnicode(s)
      case _ => None
  }

  function ReadUnicode(s: string): (r: Option<(char, string)>)
    requires |s| >= 2
    ensures r.Some? ==> |r.value.1| < |s|
  {
    if |s| < 6 then None else
    var u :- CodeUnit(s[2..6]);
    if u < 0xD800 then Some((u as char, s[6..]))
    else if 0xE000 <= u < 0x1_0000 then Some((u as char, s[6..]))
    else if u >= 0xDC00 || |s| < 12 || s[6..8] != "\\u" then None
    else
      var v :- CodeUnit(s[8..12]);
      if 0xDC00 <= v < 0xE000 then Some(((0x1_0000 + (u - 0xD800) * 0x400 + (v - 0xDC00)) as char, s[12..])) else None
  }

  /** The rest of a JSON string after its opening quote: its characters, and what follows its closing quote. */
  function ReadString(s: string): Option<(string, string)>
    decreases |s|
  {
    if s == [] then None
    else if s[0] == '"' then Some(([], s[1..]))
    else
      var (c, rest) :- ReadChar(s);
      var (cs, end) :- ReadString(rest);
      Some(([c] + cs, end))
  }

  /** Which escape is chosen: the short form where the encoder has one, four lower-case digits for the other control
      characters, and the character itself everywhere else. */
  lemma EscapesAreAsShortAsTheyGet(c: char)
    ensures c == '"' || c == '\\' || c == '\n' || c == '\r' || c == '\t' <==> |EscapeChar(c)| == 2
    ensures c >= ' ' && c != '"' && c != '\\' <==> EscapeChar(c) == [c]
    ensures |EscapeChar(c)| in {1, 2, 6}
    ensures |EscapeChar(c)| == 6 ==> EscapeChar(c)[..4] == "\\u00" && EscapeChar(c)[4..] == Hex([c as int])
  {
    if |EscapeChar(c)| == 6 {
      assert Hex([c as int])[2..] == [];
    }
  }

  lemma ReadCharReads(c: char, rest: string)
    ensures ReadChar(EscapeChar(c) + rest) == Some((c, rest))
    ensures EscapeChar(c) != [] && EscapeChar(c)[0] != '"'
  {
    var e := EscapeChar(c);
    var s := e + rest;
    assert s[|e|..] == rest && e == s[..|e|];
    if |e| == 6 {
      assert s[2..6] == e[2..6];
      assert e[2..6] == ['0', '0', HexDigit(c as int / 16), HexDigit(c as int % 16)];
    }
  }

  /** Reading an escaped string as RFC 8259 does gives the string back, for every string: the escaped text never
      ends the JSON string early, and ends it at exactly the quote that follows. */
  lemma {:induction false} EscapedStringsAreReadBack(s: string, rest: string)
    ensures ReadString(Escape(s) + "\"" + rest) == Some((s, rest))
  {
    hide ReadChar, EscapeChar;
    var text := Escape(s) + "\"" + rest;
    if s == [] {
      assert text == "\"" + rest && text[1..] == rest;
    } else {
      var tail := Escape(s[1..]) + "\"" + rest;
      assert text == EscapeChar(s[0]) + tail;
      ReadCharReads(s[0], tail);
      EscapedStringsAreReadBack(s[1..], rest);
      assert [s[0]] + s[1..] == s;
    }
  }

  // ── The canonical body ─────────────────────────────────────────────────────

  /** What the wallet's own signature over a binding covers. */
  function CanonicalJson(did: string, chain: Chain, address: Address, nonce: Bytes32): string {
    "{\"agent_did\":\"" + (Escape(did) + "\"" + (",\"chain_id\":" + (Decimal(chain.ChainId())
      + (",\"address\":\"0x" + (Hex(address) + ("\",\"nonce\":\"0x" + (Hex(nonce) + "\"}")))))))
  }

  method WalletBindCanonicalJson(did: string, chain: Chain, address: Address, nonce: Bytes32) returns (json: string)
    ensures json == CanonicalJson(did, chain, address, nonce)
  {
    var escaped := JsonEscape(did);
    var addressHex := ToHexLower(address);
    var nonceHex := ToHexLower(nonce);
    json := "{\"agent_did\":\"" + (escaped + "\"" + (",\"chain_id\":" + (Decimal(chain.ChainId())
      + (",\"address\":\"0x" + (addressHex + ("\",\"nonce\":\"0x" + (nonceHex + "\"}")))))));
  }

  function Literal(s: string, text: string): Option<string> {
    if text <= s then Some(s[|text|..]) else None
  }

  function TakeHex(s: string, bytes: nat): Option<(Bytes, string)> {
    if |s| < 2 * bytes then None else
    var b :- FromHex(s[..2 * bytes]);
    Some((b, s[2 * bytes..]))
  }

  /** A reader of the canonical body: the did, the chain id, the address and the nonce. */
  function ReadCanonical(s: string): Option<(string, nat, Bytes, Bytes)> {
    var s :- Literal(s, "{\"agent_did\":\"");
    var (did, s) :- ReadString(s);
    var s :- Literal(s, ",\"chain_id\":");
    var (digits, s) := TakeDigits(s);
    var s :- Literal(s, ",\"address\":\"0x");
    var (address, s) :- TakeHex(s, 20);
    var s :- Literal(s, "\",\"nonce\":\"0x");
    var (nonce, s) :- TakeHex(s, 32);
    if s == "\"}" then Some((did, DecimalValue(digits), address, nonce)) else None
  }

  lemma LiteralReads(text: string, rest: string)
    ensures Literal(text + rest, text) == Some(rest)
  {
  }

  lemma TakeHexReads(bytes: Bytes, rest: string)
    ensures TakeHex(Hex(bytes) + rest, |bytes|) == Some((bytes, rest))
  {
    assert (Hex(bytes) + rest)[..2 * |bytes|] == Hex(bytes);
    assert (Hex(bytes) + rest)[2 * |bytes|..] == rest;
    HexRoundTrip(bytes);
  }

  lemma CanonicalJsonIsReadBack(did: string, chain: Chain, address: Address, nonce: Bytes32)
    ensures ReadCanonical(CanonicalJson(did, chain, address, nonce)) == Some((did, chain.ChainId(), address, nonce))
  {
    hide Literal, ReadString, TakeDigits, TakeHex, Escape, Hex, FromHex, Decimal, DecimalValue, AllDigits, Chain.ChainId;
    var s7 := Hex(nonce) + "\"}";
    var s6 := "\",\"nonce\":\"0x" + s7;
    var s5 := Hex(address) + s6;
    var s4 := ",\"address\":\"0x" + s5;
    var s3 := Decimal(chain.ChainId()) + s4;
    var s2 := ",\"chain_id\":" + s3;
    var s1 := Escape(did) + "\"" + s2;
    LiteralReads("{\"agent_did\":\"", s1);
    EscapedStringsAreReadBack(did, s2);
    LiteralReads(",\"chain_id\":", s3);
    TakeDigitsReads(Decimal(chain.ChainId()), s4);
    DecimalRoundTrip(chain.ChainId());
    LiteralReads(",\"address\":\"0x", s5);
    TakeHexReads(address, s6);
    LiteralReads("\",\"nonce\":\"0x", s7);
    TakeHexReads(nonce, "\"}");
  }

  /** One canonical body binds one did, chain, address and nonce, whatever characters the did holds. */
  lemma CanonicalJsonBindsItsFields(did: string, chain: Chain, address: Address, nonce: Bytes32,
                                    did': string, chain': Chain, address': Address, nonce': Bytes32)
    requires CanonicalJson(did, chain, address, nonce) == CanonicalJson(did', chain', address', nonce')
    ensures did == did' && chain == chain' && address == address' && nonce == nonce'
  {
    CanonicalJsonIsReadBack(did, chain, address, nonce);
    CanonicalJsonIsReadBack(did', chain', address', nonce');
    hide CanonicalJson, ReadCanonical;
  }

  // ── The EIP-191 message ────────────────────────────────────────────────────

  /** What the external wallet signs; the did is not escaped here. */
  function BindMessage(did: string, chain: Chain, address: Address, nonce: Bytes32): string {
    (((("SAGP wallet binding\nagent_did: " + did) + "\nchain: ") + Decimal(chain.ChainId())) + "\naddress: 0x" + Hex(address))
    + ("\nnonce: 0x" + Hex(nonce))
  }

  /** What `s` says before the text it ends with. */
  function Before(s: string, text: string): Option<string> {
    if |text| <= |s| && s[|s| - |text|..] == text then Some(s[..|s| - |text|]) else None
  }

  function TakeHexEnd(s: string, bytes: nat): Option<(string, Bytes)> {
    if |s| < 2 * bytes then None else
    var b :- FromHex(s[|s| - 2 * bytes..]);
    Some((s[..|s| - 2 * bytes], b))
  }

  /** The longest run of digits `s` ends with, and what is before it. */
  function TakeDigitsEnd(s: string): (r: (string, string))
    ensures AllDigits(r.1)
  {
    if s == [] || !IsDigit(s[|s| - 1]) then (s, []) else
    var (rest, ds) := TakeDigitsEnd(s[..|s| - 1]);
    (rest, ds + [s[|s| - 1]])
  }

  /** A reader of the message, from its end: the nonce, the address, the chain id, and whatever is left is the did. */
  function ReadBindMessage(s: string): Option<(string, nat, Bytes, Bytes)> {
    var (s, nonce) :- TakeHexEnd(s, 32);
    var s :- Before(s, "\nnonce: 0x");
    var (s, address) :- TakeHexEnd(s, 20);
    var s :- Before(s, "\naddress: 0x");
    var (s, digits) := TakeDigitsEnd(s);
    var s :- Before(s, "\nchain: ");
    var did :- Literal(s, "SAGP wallet binding\nagent_did: ");
    Some((did, DecimalValue(digits), address, nonce))
  }

  lemma BeforeReads(s: string, text: string)
    ensures Before(s + text, text) == Some(s)
  {
  }

  lemma TakeHexEndReads(s: string, bytes: Bytes)
    ensures TakeHexEnd(s + Hex(bytes), |bytes|) == Some((s, bytes))
  {
    var t := s + Hex(bytes);
    assert t[|t| - 2 * |bytes|..] == Hex(bytes) && t[..|t| - 2 * |bytes|] == s;
    HexRoundTrip(bytes);
  }

  lemma {:induction false} TakeDigitsEndReads(s: string, ds: string)
    requires AllDigits(ds) && s != [] && !IsDigit(s[|s| - 1])
    ensures TakeDigitsEnd(s + ds) == (s, ds)
  {
    if ds == [] {
      assert s + ds == s;
    } else {
      var init := ds[..|ds| - 1];
      assert (s + ds)[..|s + ds| - 1] == s + init;
      TakeDigitsEndReads(s, init);
      assert init + [ds[|ds| - 1]] == ds;
    }
  }

  /** Unescaped as it is, the message reads back: the fields after the did have fixed shapes, so no line breaks in the did
      can imitate them. */
  lemma BindMessageIsReadBack(did: string, chain: Chain, address: Address, nonce: Bytes32)
    ensures ReadBindMessage(BindMessage(did, chain, address, nonce)) == Some((did, chain.ChainId(), address, nonce))
  {
    hide Before, TakeHexEnd, TakeDigitsEnd, Literal, Hex, Decimal, DecimalValue, AllDigits, Chain.ChainId;
    var s1 := "SAGP wallet binding\nagent_did: " + did;
    var s2 := s1 + "\nchain: ";
    var s3 := s2 + Decimal(chain.ChainId());
    var s4 := s3 + "\naddress: 0x";
    var s5 := s4 + Hex(address);
    var s6 := s5 + "\nnonce: 0x";
    assert BindMessage(did, chain, address, nonce) == s6 + Hex(nonce);
    TakeHexEndReads(s6, nonce);
    BeforeReads(s5, "\nnonce: 0x");
    TakeHexEndReads(s4, address);
    BeforeReads(s3, "\naddress: 0x");
    TakeDigitsEndReads(s2, Decimal(chain.ChainId()));
    DecimalRoundTrip(chain.ChainId());
    BeforeReads(s1, "\nchain: ");
    LiteralReads("SAGP wallet binding\nagent_did: ", did);
  }

  /** So one message binds one did, chain, address and nonce. */
  lemma BindMessageBindsItsFields(did: string, chain: Chain, address: Address, nonce: Bytes32,
                                  did': string, chain': Chain, address': Address, nonce': Bytes32)
    requires BindMessage(did, chain, address, nonce) == BindMessage(did', chain', address', nonce')
    ensures did == did' && chain == chain' && address == address' && nonce == nonce'
  {
    BindMessageIsReadBack(did, chain, address, nonce);
    BindMessageIsReadBack(did', chain', address', nonce');
    hide BindMessage, ReadBindMessage;
  }
}
