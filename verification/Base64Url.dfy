/** Byte fields as base64url text, section 5 of RFC 4648 without padding. Decoding is strict: the decoder
    reads leniently, re-encodes and compares. Texts are their UTF-8 bytes. */
module Base64Url {
  import opened Wrappers
  import opened Words
  import opened Bits

  type Sextet = v: int | 0 <= v < 64

  function Range(first: char, n: nat): Bytes
    requires first as int + n <= 128
  {
    seq(n, i requires 0 <= i < n => first as int + i)
  }

  /** A-Z, a-z, 0-9, '-', '_'. */
  function Alphabet(): (a: Bytes)
    ensures |a| == 64
  {
    Range('A', 26) + Range('a', 26) + Range('0', 10) + Ascii("-_")
  }

  function Symbol(v: Sextet): byte { Alphabet()[v] }

  /** The first position of `c` in the alphabet from `at` on. */
  function Position(c: byte, at: nat): (r: Option<Sextet>)
    requires at <= 64
    ensures r.Some? ==> Symbol(r.value) == c
    ensures r.None? ==> forall v: Sextet :: at <= v ==> Symbol(v) != c
    decreases 64 - at
  {
    if at == 64 then None else if Alphabet()[at] == c then Some(at) else Position(c, at + 1)
  }

  function Value(c: byte): Option<Sextet> { Position(c, 0) }

  predicate InAlphabet(c: byte) { Value(c).Some? }

  lemma AlphabetIsInjective(v: Sextet, w: Sextet)
    ensures Symbol(v) == Symbol(w) ==> v == w
  {
  }

  lemma ValueOfSymbol(v: Sextet)
    ensures Value(Symbol(v)) == Some(v)
  {
    var c := Symbol(v);
    if Value(c).Some? {
      AlphabetIsInjective(v, Value(c).value);
    }
    hide Alphabet;
  }

  /** The shifts 18, 12, 6, 0 of the four symbols, as powers of two. */
  function SymbolUnit(i: nat): nat
    requires i < 4
  {
    if i == 0 then 0x4_0000 else if i == 1 then 0x1000 else if i == 2 then 0x40 else 1
  }

  /** The shifts 16, 8, 0 of the three bytes. */
  function ByteUnit(i: nat): nat
    requires i < 3
  {
    if i == 0 then 0x1_0000 else if i == 1 then 0x100 else 1
  }

  lemma UnitsArePowers(i: nat)
    requires i < 4
    ensures Pow2(18 - 6 * i) == SymbolUnit(i)
    ensures i < 3 ==> Pow2(16 - 8 * i) == ByteUnit(i)
  {
    Pow2Values();
    hide Pow2;
    assert i == 0 || i == 1 || i == 2 || i == 3;
  }

  lemma ShiftedByte(a: byte)
    ensures Shl(a, 16) == a * 0x1_0000 && Shl(a, 8) == a * 0x100
  {
    Pow2Values();
    hide Pow2;
  }

  /** The three bytes of a group, shifted and or-ed into one word. */
  lemma BytesAreGrouped(a: byte, b: byte, c: byte)
    ensures Or(Or(Shl(a, 16), Shl(b, 8)), c) == a * 0x1_0000 + b * 0x100 + c
  {
    hide Or, Pow2, Shl;
    Pow2Values();
    ShiftedByte(a);
    ShiftedByte(b);
    var hi: nat, mid: nat, lo: nat := a, b * 0x100, c;
    OrOfDisjointBits(hi, 16, mid);
    var top: nat := a * 0x100 + b;
    assert top * 0x100 == hi * 0x1_0000 + mid;
    OrOfDisjointBits(top, 8, lo);
  }

  /** Or-ing the next symbol into a group whose lower bits are still zero adds it at its place. */
  lemma SymbolIsAdded(i: nat, group: nat, v: Sextet)
    requires i < 4 && group % (64 * SymbolUnit(i)) == 0
    ensures Or(group, Shl(v, 18 - 6 * i)) == group + v * SymbolUnit(i)
  {
    UnitsArePowers(i);
    Pow2Values();
    assert Pow2(24 - 6 * i) == 64 * SymbolUnit(i);
    assert SymbolUnit(i) <= 0x4_0000;
    var unit := SymbolUnit(i);
    hide Or, Pow2, SymbolUnit;
    SymbolFits(v, unit);
    Euclid(group, 64 * unit);
    OrOfDisjointBits(group / (64 * unit), 24 - 6 * i, v * unit);
  }

  lemma SymbolFits(v: Sextet, unit: nat)
    requires 0 < unit <= 0x4_0000
    ensures 0 <= v * unit < 64 * unit && v * unit % TWO_32 == v * unit
  {
    MultiplesAreApart(64, v, unit);
    RemainderIsUnique(v * unit, TWO_32, 0, v * unit);
  }

  /** Symbol `i` of a group is cut out by a shift and a mask, byte `i` by a shift and a truncation. */
  lemma FieldsAreCutOut(n: nat, i: nat)
    requires i < 4
    ensures And(Shr(n, 18 - 6 * i), 63) == n / SymbolUnit(i) % 64
    ensures i < 3 ==> Shr(n, 16 - 8 * i) == n / ByteUnit(i)
  {
    UnitsArePowers(i);
    Pow2Values();
    MaskIsRemainder(Shr(n, 18 - 6 * i), 6);
    hide And, Pow2, SymbolUnit, ByteUnit;
  }

  // ── Encoding ───────────────────────────────────────────────────────────────

  function ByteAt(chunk: Bytes, i: nat): byte {
    if i < |chunk| then chunk[i] else 0
  }

  function PackBytes(chunk: Bytes): nat {
    ByteAt(chunk, 0) * 0x1_0000 + ByteAt(chunk, 1) * 0x100 + ByteAt(chunk, 2)
  }

  function EncodeChunk(chunk: Bytes): (text: Bytes)
    requires 1 <= |chunk| <= 3
    ensures |text| == |chunk| + 1
  {
    seq(|chunk| + 1, i requires 0 <= i < 4 => Symbol(PackBytes(chunk) / SymbolUnit(i) % 64))
  }

  function Encode(bytes: Bytes): Bytes {
    if bytes == [] then [] else
    var m := if |bytes| < 3 then |bytes| else 3;
    EncodeChunk(bytes[..m]) + Encode(bytes[m..])
  }

  method EncodeText(bytes: Bytes) returns (out: Bytes)
    ensures out == Encode(bytes)
  {
    hide EncodeChunk, Symbol;
    out := [];
    var at := 0;
    while at < |bytes|
      invariant 0 <= at <= |bytes|
      invariant out + Encode(bytes[at..]) == Encode(bytes)
    {
      var m := if |bytes| - at < 3 then |bytes| - at else 3;
      var chunk := bytes[at..at + m];
      assert bytes[at..][..m] == chunk && bytes[at..][m..] == bytes[at + m..];
      var symbols := EncodeChunkText(chunk);
      AppendAssoc(out, symbols, Encode(bytes[at + m..]));
      out := out + symbols;
      at := at + m;
    }
    assert bytes[at..] == [];
    assert out + [] == out;
  }

  /** The symbol loop of one chunk. */
  method EncodeChunkText(chunk: Bytes) returns (out: Bytes)
    requires 1 <= |chunk| <= 3
    ensures out == EncodeChunk(chunk)
  {
    var n := Or(Or(Shl(chunk[0], 16), Shl(ByteAt(chunk, 1), 8)), ByteAt(chunk, 2));
    BytesAreGrouped(ByteAt(chunk, 0), ByteAt(chunk, 1), ByteAt(chunk, 2));
    assert n == PackBytes(chunk) by { hide Or, Shl; }
    hide *;
    out := [];
    for i := 0 to |chunk| + 1
      invariant out == EncodeChunk(chunk)[..i]
    {
      NextSymbol(chunk, i);
      out := out + [Symbol(And(Shr(n, 18 - 6 * i), 63))];
    }
  }

  lemma NextSymbol(chunk: Bytes, i: nat)
    requires 1 <= |chunk| <= 3 && i <= |chunk|
    ensures var field := And(Shr(PackBytes(chunk), 18 - 6 * i), 63);
            field < 64 && EncodeChunk(chunk)[..i + 1] == EncodeChunk(chunk)[..i] + [Symbol(field)]
  {
    FieldsAreCutOut(PackBytes(chunk), i);
    hide And, Shr, Symbol, PackBytes, SymbolUnit;
  }

  // ── Decoding ───────────────────────────────────────────────────────────────

  function SymbolAt(chunk: Bytes, i: nat): (v: int)
    ensures 0 <= v < 64
  {
    if i < |chunk| && InAlphabet(chunk[i]) then Value(chunk[i]).value else 0
  }

  function PackSymbols(chunk: Bytes): nat {
    SymbolAt(chunk, 0) * 0x4_0000 + SymbolAt(chunk, 1) * 0x1000 + SymbolAt(chunk, 2) * 0x40 + SymbolAt(chunk, 3)
  }

  function DecodeChunk(chunk: Bytes): (bytes: Bytes)
    requires 2 <= |chunk| <= 4
    ensures |bytes| == |chunk| - 1
  {
    seq(|chunk| - 1, i requires 0 <= i < 3 => PackSymbols(chunk) / ByteUnit(i) % 256)
  }

  predicate AllInAlphabet(text: Bytes) {
    forall i :: 0 <= i < |text| ==> InAlphabet(text[i])
  }

  /** The bytes of a text all of whose symbols are in the alphabet. */
  function DecodeChunks(text: Bytes): Bytes
    requires |text| % 4 != 1
  {
    if text == [] then [] else
    var m := if |text| < 4 then |text| else 4;
    DecodeChunk(text[..m]) + DecodeChunks(text[m..])
  }

  function DecodeAny(text: Bytes): Option<Bytes> {
    if |text| % 4 == 1 || !AllInAlphabet(text) then None else Some(DecodeChunks(text))
  }

  /** Strict: bytes only for the spelling `Encode` produces. */
  function Decode(text: Bytes): Option<Bytes> {
    var out :- DecodeAny(text);
    if Encode(out) == text then Some(out) else None
  }

  lemma AllInAlphabetSplits(text: Bytes, at: nat, m: nat)
    requires at + m <= |text|
    ensures AllInAlphabet(text) ==> AllInAlphabet(text[at..at + m])
    ensures AllInAlphabet(text[..at]) && AllInAlphabet(text[at..at + m]) ==> AllInAlphabet(text[..at + m])
  {
    hide InAlphabet;
    var s, t := text[..at], text[at..at + m];
    assert forall i :: 0 <= i < m ==> t[i] == text[at + i];
    assert forall i :: 0 <= i < at + m ==> text[..at + m][i] == if i < at then s[i] else t[i - at];
  }

  lemma DecodeChunksFrom(out: Bytes, text: Bytes, at: nat, m: nat)
    requires at < |text| && |text[at..]| % 4 != 1 && m == if |text| - at < 4 then |text| - at else 4
    ensures (out + DecodeChunk(text[at..at + m])) + DecodeChunks(text[at + m..]) == out + DecodeChunks(text[at..])
  {
    hide DecodeChunk;
    assert text[at..][..m] == text[at..at + m] && text[at..][m..] == text[at + m..];
    AppendAssoc(out, DecodeChunk(text[at..at + m]), DecodeChunks(text[at + m..]));
  }

  lemma ChunksFit(left: nat, m: nat)
    requires left % 4 != 1 && left > 0 && m == if left < 4 then left else 4
    ensures 2 <= m <= 4 && (left - m) % 4 != 1
  {
  }

  /** The chunks before `at` decoded to `out`. */
  ghost predicate DecodedUpTo(text: Bytes, at: nat, out: Bytes)
    requires |text| % 4 != 1
  {
    && at <= |text| && (|text| - at) % 4 != 1 && AllInAlphabet(text[..at])
    && out + DecodeChunks(text[at..]) == DecodeChunks(text)
  }

  lemma OneChunkOn(text: Bytes, at: nat, out: Bytes, m: nat)
    requires |text| % 4 != 1 && DecodedUpTo(text, at, out) && at < |text| && m == if |text| - at < 4 then |text| - at else 4
    ensures 2 <= m <= 4 && at + m <= |text|
    ensures AllInAlphabet(text[at..at + m]) ==> DecodedUpTo(text, at + m, out + DecodeChunk(text[at..at + m]))
    ensures !AllInAlphabet(text[at..at + m]) ==> !AllInAlphabet(text)
  {
    hide DecodeChunk, DecodeChunks, AllInAlphabet;
    ChunksFit(|text| - at, m);
    AllInAlphabetSplits(text, at, m);
    DecodeChunksFrom(out, text, at, m);
  }

  lemma RefusedText(text: Bytes)
    requires !AllInAlphabet(text)
    ensures DecodeAny(text) == None
  {
  }

  method DecodeAnyText(text: Bytes) returns (r: Option<Bytes>)
    ensures r == DecodeAny(text)
  {
    if |text| % 4 == 1 {
      return None;
    }
    var out := [];
    var at := 0;
    assert text[0..] == text && text[..0] == [];
    assert DecodedUpTo(text, at, out);
    while at < |text|
      invariant 0 <= at <= |text| && DecodedUpTo(text, at, out)
    {
      hide *;
      var m := if |text| - at < 4 then |text| - at else 4;
      OneChunkOn(text, at, out, m);
      var bytes := DecodeChunkText(text[at..at + m]);
      if bytes.None? {
        RefusedText(text);
        return None;
      }
      out := out + bytes.value;
      at := at + m;
    }
    NothingLeft(text, out);
    return Some(out);
  }

  lemma NothingLeft(text: Bytes, out: Bytes)
    requires |text| % 4 != 1
    ensures text[..|text|] == text && out + DecodeChunks(text[|text|..]) == out
  {
    assert text[|text|..] == [];
    assert out + [] == out;
  }

  /** The two loops of one chunk: accumulate the symbols, stopping at one outside the alphabet, then push
      the bytes. */
  method DecodeChunkText(chunk: Bytes) returns (r: Option<Bytes>)
    requires 2 <= |chunk| <= 4
    ensures r == if AllInAlphabet(chunk) then Some(DecodeChunk(chunk)) else None
  {
    var n := 0;
    assert GroupedUpTo(chunk, 0, n);
    hide *;
    for i := 0 to |chunk|
      invariant GroupedUpTo(chunk, i, n)
    {
      OneSymbolOn(chunk, i, n);
      var v := Value(chunk[i]);
      if v.None? {
        return None;
      }
      n := Or(n, Shl(v.value, 18 - 6 * i));
    }
    WholeGroup(chunk, n);
    var out := PushGroupBytes(chunk, n);
    return Some(out);
  }

  /** The byte loop of one chunk. */
  method PushGroupBytes(chunk: Bytes, n: nat) returns (out: Bytes)
    requires 2 <= |chunk| <= 4 && n == PackSymbols(chunk)
    ensures out == DecodeChunk(chunk)
  {
    assert DecodeChunk(chunk)[..|chunk| - 1] == DecodeChunk(chunk) && DecodeChunk(chunk)[..0] == [];
    hide *;
    out := [];
    for i := 0 to |chunk| - 1
      invariant out == DecodeChunk(chunk)[..i]
    {
      NextByte(chunk, i);
      out := out + [Shr(n, 16 - 8 * i) % 256];
    }
  }

  /** The symbols before `i` are in the alphabet and grouped in `n`. */
  ghost predicate GroupedUpTo(chunk: Bytes, i: nat, n: nat) {
    i <= |chunk| && AllInAlphabet(chunk[..i]) && n == PackSymbols(chunk[..i])
  }

  lemma OneSymbolOn(chunk: Bytes, i: nat, n: nat)
    requires 2 <= |chunk| <= 4 && i < |chunk| && GroupedUpTo(chunk, i, n)
    ensures Value(chunk[i]).None? ==> !AllInAlphabet(chunk)
    ensures Value(chunk[i]).Some? ==> GroupedUpTo(chunk, i + 1, Or(n, Shl(Value(chunk[i]).value, 18 - 6 * i)))
  {
    hide Value, Or, Shl;
    if Value(chunk[i]).Some? {
      GroupSoFar(chunk[..i]);
      SymbolIsAdded(i, n, Value(chunk[i]).value);
      assert forall k :: 0 <= k < i ==> chunk[..i][k] == chunk[..i + 1][k];
      SymbolsSoFar(chunk, i);
    }
  }

  lemma SymbolsSoFar(chunk: Bytes, i: nat)
    requires i < |chunk| <= 4 && Value(chunk[i]).Some?
    ensures PackSymbols(chunk[..i + 1]) == PackSymbols(chunk[..i]) + Value(chunk[i]).value * SymbolUnit(i)
  {
    MissingSymbolsAreZero(chunk[..i]);
    MissingSymbolsAreZero(chunk[..i + 1]);
    forall k | 0 <= k < i
      ensures SymbolAt(chunk[..i + 1], k) == SymbolAt(chunk[..i], k)
    {
      SymbolAtIgnoresTheRest(chunk[..i + 1], k, chunk[..i], k);
    }
    assert SymbolAt(chunk[..i + 1], i) == Value(chunk[i]).value;
    hide SymbolAt, Value;
  }

  lemma WholeGroup(chunk: Bytes, n: nat)
    requires GroupedUpTo(chunk, |chunk|, n)
    ensures AllInAlphabet(chunk) && n == PackSymbols(chunk)
  {
    assert chunk[..|chunk|] == chunk;
  }

  lemma NextByte(chunk: Bytes, i: nat)
    requires 2 <= |chunk| <= 4 && i < |chunk| - 1
    ensures var field := Shr(PackSymbols(chunk), 16 - 8 * i) % 256;
            DecodeChunk(chunk)[..i + 1] == DecodeChunk(chunk)[..i] + [field]
  {
    FieldsAreCutOut(PackSymbols(chunk), i);
    hide Shr, PackSymbols, ByteUnit;
  }

  lemma GroupSoFar(symbols: Bytes)
    requires |symbols| < 4
    ensures PackSymbols(symbols) % (64 * SymbolUnit(|symbols|)) == 0
  {
    MissingSymbolsAreZero(symbols);
    hide SymbolAt;
  }

  method DecodeText(text: Bytes) returns (r: Option<Bytes>)
    ensures r == Decode(text)
  {
    var out := DecodeAnyText(text);
    if out.None? {
      return None;
    }
    var again := EncodeText(out.value);
    return if again == text then out else None;
  }

  // ── The canonical rule ─────────────────────────────────────────────────────

  /** Table 2 of section 5 of RFC 4648, by character ranges. */
  function RfcSymbol(v: Sextet): byte {
    if v < 26 then 'A' as int + v
    else if v < 52 then 'a' as int + (v - 26)
    else if v < 62 then '0' as int + (v - 52)
    else if v == 62 then '-' as int
    else '_' as int
  }

  /** The same table read backwards. */
  function RfcValue(c: byte): (r: Option<Sextet>)
    ensures r.Some? ==> RfcSymbol(r.value) == c
  {
    if 'A' as int <= c <= 'Z' as int then Some(c - 'A' as int)
    else if 'a' as int <= c <= 'z' as int then Some(c - 'a' as int + 26)
    else if '0' as int <= c <= '9' as int then Some(c - '0' as int + 52)
    else if c == '-' as int then Some(62)
    else if c == '_' as int then Some(63)
    else None
  }

  /** The codec's table is the RFC's, symbol for symbol. */
  lemma SymbolsAreTheRfcs(v: Sextet)
    ensures Symbol(v) == RfcSymbol(v)
  {
    assert Range('A', 26)[..] == Range('A', 26);
    assert Ascii("-_")[0] == '-' as int && Ascii("-_")[1] == '_' as int;
  }

  lemma ValuesAreTheRfcs(c: byte)
    ensures Value(c) == RfcValue(c)
  {
    hide Symbol, RfcSymbol, Value;
    if RfcValue(c).Some? {
      SymbolsAreTheRfcs(RfcValue(c).value);
      ValueOfSymbol(RfcValue(c).value);
    } else {
      NoRfcSymbol(c);
    }
  }

  lemma NoRfcSymbol(c: byte)
    requires RfcValue(c).None?
    ensures Value(c).None?
  {
    if Value(c).Some? {
      SymbolsAreTheRfcs(Value(c).value);
    }
    hide Symbol;
  }

  /** Sections 5 and 3.5 of RFC 4648: alphabet symbols only, no padding, a possible length, and the bits of
      the last symbol that no byte uses all zero. */
  predicate Canonical(text: Bytes) {
    && |text| % 4 != 1
    && (forall i :: 0 <= i < |text| ==> RfcValue(text[i]).Some?)
    && (|text| % 4 == 2 ==> RfcValue(text[|text| - 1]).value % 16 == 0)
    && (|text| % 4 == 3 ==> RfcValue(text[|text| - 1]).value % 4 == 0)
  }

  /** The same rule by the codec's own table. */
  predicate CanonicalByTable(text: Bytes) {
    && |text| % 4 != 1
    && AllInAlphabet(text)
    && (|text| % 4 == 2 ==> SymbolAt(text, |text| - 1) % 16 == 0)
    && (|text| % 4 == 3 ==> SymbolAt(text, |text| - 1) % 4 == 0)
  }

  lemma CanonicalEitherWay(text: Bytes)
    ensures Canonical(text) <==> CanonicalByTable(text)
  {
    forall i | 0 <= i < |text|
      ensures Value(text[i]) == RfcValue(text[i])
    {
      ValuesAreTheRfcs(text[i]);
    }
    hide Value, RfcValue;
  }

  /** The text with the unused low bits of its last symbol cleared. */
  function ClearUnused(text: Bytes): (r: Bytes)
    requires |text| % 4 != 1
    ensures |r| == |text|
  {
    var last := |text| - 1;
    if |text| % 4 == 0 then text
    else
      var v := SymbolAt(text, last);
      var unused := if |text| % 4 == 2 then v % 16 else v % 4;
      text[..last] + [Symbol(v - unused)]
  }

  lemma SextetsOf(n: nat)
    requires n < 0x100_0000
    ensures n / 0x4_0000 % 64 * 0x4_0000 + n / 0x1000 % 64 * 0x1000 + n / 0x40 % 64 * 0x40 + n % 64 == n
  {
    var p := n / 0x40;
    var q := p / 64;
    assert n / 0x1000 == q;
    assert n / 0x4_0000 == q / 64;
  }

  lemma TrailingZeroSextets(k: nat)
    ensures k * 0x100 % 64 == 0
    ensures k * 0x1_0000 / 0x40 % 64 == 0 && k * 0x1_0000 % 64 == 0
  {
    assert k * 0x100 == 64 * (4 * k);
    assert k * 0x1_0000 == 64 * (1024 * k) && k * 0x1_0000 / 0x40 == 64 * (16 * k);
  }

  lemma PackedSextets(a: int, b: int, c: int, e: int)
    requires 0 <= a < 64 && 0 <= b < 64 && 0 <= c < 64 && 0 <= e < 64
    ensures var n := a * 0x4_0000 + b * 0x1000 + c * 0x40 + e;
            n / 0x4_0000 % 64 == a && n / 0x1000 % 64 == b && n / 0x40 % 64 == c && n % 64 == e
  {
    var n := a * 0x4_0000 + b * 0x1000 + c * 0x40 + e;
    assert n / 0x4_0000 == a;
    assert n / 0x1000 == a * 64 + b;
    assert n / 0x40 == (a * 64 + b) * 64 + c;
  }

  lemma PackedBytes(a: byte, b: byte, c: byte)
    ensures var n := a * 0x1_0000 + b * 0x100 + c;
            n / 0x1_0000 % 256 == a && n / 0x100 % 256 == b && n % 256 == c && n < 0x100_0000
  {
  }

  lemma SymbolAtSpells(text: Bytes, i: nat)
    requires i < |text| && InAlphabet(text[i])
    ensures Symbol(SymbolAt(text, i)) == text[i]
  {
    hide Symbol;
  }

  lemma SymbolAtOfSymbol(text: Bytes, i: nat, v: Sextet)
    requires i < |text| && text[i] == Symbol(v)
    ensures InAlphabet(text[i]) && SymbolAt(text, i) == v
  {
    ValueOfSymbol(v);
    hide Symbol, Position;
  }

  lemma ChunkRoundTrip(chunk: Bytes)
    requires 1 <= |chunk| <= 3
    ensures AllInAlphabet(EncodeChunk(chunk)) && DecodeChunk(EncodeChunk(chunk)) == chunk
  {
    hide Symbol, Value, SymbolAt;
    var n := PackBytes(chunk);
    var text := EncodeChunk(chunk);
    PackedBytes(ByteAt(chunk, 0), ByteAt(chunk, 1), ByteAt(chunk, 2));
    SextetsOf(n);
    TrailingZeroSextets(ByteAt(chunk, 0));
    TrailingZeroSextets(ByteAt(chunk, 0) * 0x100 + ByteAt(chunk, 1));
    forall i | 0 <= i < |chunk| + 1
      ensures SymbolAt(text, i) == n / SymbolUnit(i) % 64 && InAlphabet(text[i])
    {
      SymbolAtOfSymbol(text, i, n / SymbolUnit(i) % 64);
    }
    MissingSymbolsAreZero(text);
    assert PackSymbols(text) == n by {
      hide EncodeChunk;
      if |chunk| == 1 {
        assert n == ByteAt(chunk, 0) * 0x1_0000;
      } else if |chunk| == 2 {
        assert n == (ByteAt(chunk, 0) * 0x100 + ByteAt(chunk, 1)) * 0x100;
      }
    }
    hide EncodeChunk, PackSymbols;
    var out := DecodeChunk(text);
    assert forall i :: 0 <= i < |chunk| ==> out[i] == chunk[i];
  }

  lemma MissingSymbolsAreZero(text: Bytes)
    ensures forall i: nat :: i >= |text| ==> SymbolAt(text, i) == 0
  {
  }

  lemma BytesOf(n: nat)
    requires n < 0x100_0000
    ensures n / 0x1_0000 % 256 * 0x1_0000 + n / 0x100 % 256 * 0x100 == n / 0x100 * 0x100
    ensures n / 0x1_0000 % 256 == n / 0x1_0000
  {
    var g := n / 0x100;
    assert n / 0x1_0000 == g / 256;
  }

  lemma PackedSextetsOverBytes(a: int, b: int, c: int, e: int)
    requires 0 <= a < 64 && 0 <= b < 64 && 0 <= c < 64 && 0 <= e < 64
    ensures var n := a * 0x4_0000 + b * 0x1000 + c * 0x40 + e;
            && n < 0x100_0000
            && n / 0x100 == a * 0x400 + b * 0x10 + c / 4
            && n / 0x1_0000 == a * 4 + b / 16
  {
  }

  /** The bytes cut from packed sextets, packed again: what a short chunk loses is its unused bits. */
  lemma RepackedSextets(a: int, b: int, c: int, e: int)
    requires 0 <= a < 64 && 0 <= b < 64 && 0 <= c < 64 && 0 <= e < 64
    ensures var n := a * 0x4_0000 + b * 0x1000 + c * 0x40 + e;
            && n / 0x1_0000 % 256 * 0x1_0000 + n / 0x100 % 256 * 0x100 + n % 256 == n
            && (e == 0 ==> n / 0x1_0000 % 256 * 0x1_0000 + n / 0x100 % 256 * 0x100 == a * 0x4_0000 + b * 0x1000 + (c - c % 4) * 0x40)
            && (c == e == 0 ==> n / 0x1_0000 % 256 * 0x1_0000 == a * 0x4_0000 + (b - b % 16) * 0x1000)
  {
    var n := a * 0x4_0000 + b * 0x1000 + c * 0x40 + e;
    PackedSextetsOverBytes(a, b, c, e);
    BytesOf(n);
  }

  /** The value of symbol `i` of a chunk with its unused bits cleared. */
  function ClearedAt(chunk: Bytes, i: nat): Sextet {
    var v := SymbolAt(chunk, i);
    if |chunk| == 2 && i == 1 then v - v % 16 else if |chunk| == 3 && i == 2 then v - v % 4 else v
  }

  lemma DecodedPack(chunk: Bytes)
    requires 2 <= |chunk| <= 4
    ensures PackBytes(DecodeChunk(chunk))
         == ClearedAt(chunk, 0) * 0x4_0000 + ClearedAt(chunk, 1) * 0x1000 + ClearedAt(chunk, 2) * 0x40 + ClearedAt(chunk, 3)
  {
    MissingSymbolsAreZero(chunk);
    hide SymbolAt;
    RepackedSextets(SymbolAt(chunk, 0), SymbolAt(chunk, 1), SymbolAt(chunk, 2), SymbolAt(chunk, 3));
  }

  /** Re-encoding what a lenient chunk decodes to gives that chunk with its unused bits cleared. */
  lemma ChunkBack(chunk: Bytes)
    requires 2 <= |chunk| <= 4 && AllInAlphabet(chunk)
    ensures EncodeChunk(DecodeChunk(chunk)) == ClearUnused(chunk)
  {
    hide Symbol, Value, SymbolAt, DecodeChunk, PackBytes, AllInAlphabet, InAlphabet, ClearedAt;
    DecodedPack(chunk);
    PackedSextets(ClearedAt(chunk, 0), ClearedAt(chunk, 1), ClearedAt(chunk, 2), ClearedAt(chunk, 3));
    var text := EncodeChunk(DecodeChunk(chunk));
    forall i | 0 <= i < |chunk|
      ensures text[i] == ClearUnused(chunk)[i]
    {
      assert text[i] == Symbol(ClearedAt(chunk, i));
      hide EncodeChunk, ClearUnused;
      ClearedSymbol(chunk, i);
    }
  }

  lemma ClearedSymbol(chunk: Bytes, i: nat)
    requires 2 <= |chunk| <= 4 && AllInAlphabet(chunk) && i < |chunk|
    ensures ClearUnused(chunk)[i] == Symbol(ClearedAt(chunk, i))
  {
    hide Symbol, Value, SymbolAt;
    SymbolAtSpells(chunk, i);
  }

  // ── Round trips ────────────────────────────────────────────────────────────

  lemma EncodeOfOneChunk(bytes: Bytes)
    requires 1 <= |bytes| <= 3
    ensures Encode(bytes) == EncodeChunk(bytes)
  {
    hide EncodeChunk;
    assert bytes[..|bytes|] == bytes && bytes[|bytes|..] == [];
    assert EncodeChunk(bytes) + [] == EncodeChunk(bytes);
  }

  lemma DecodeOfOneChunk(text: Bytes)
    requires 2 <= |text| <= 4
    ensures DecodeChunks(text) == DecodeChunk(text)
  {
    hide DecodeChunk;
    assert text[..|text|] == text && text[|text|..] == [];
    assert DecodeChunk(text) + [] == DecodeChunk(text);
  }

  lemma {:induction false} DecodeChunksOfEncode(bytes: Bytes)
    ensures |Encode(bytes)| % 4 != 1 && AllInAlphabet(Encode(bytes))
    ensures DecodeChunks(Encode(bytes)) == bytes
  {
    if |bytes| > 3 {
      var head, tail := bytes[..3], bytes[3..];
      assert bytes == head + tail;
      hide *;
      EncodeStep(head, tail);
      ChunkRoundTrip(head);
      DecodeChunksOfEncode(tail);
      AllInAlphabetAppends(EncodeChunk(head), Encode(tail));
      DecodeChunksStep(EncodeChunk(head), Encode(tail));
    } else if bytes != [] {
      hide *;
      EncodeOfOneChunk(bytes);
      ChunkRoundTrip(bytes);
      DecodeOfOneChunk(EncodeChunk(bytes));
    }
  }

  lemma DecodeChunksStep(head: Bytes, tail: Bytes)
    requires |head| == 4 && |tail| % 4 != 1
    ensures DecodeChunks(head + tail) == DecodeChunk(head) + DecodeChunks(tail)
  {
    hide DecodeChunk;
    assert (head + tail)[..4] == head && (head + tail)[4..] == tail;
  }

  lemma AllInAlphabetAppends(s: Bytes, t: Bytes)
    requires AllInAlphabet(s) && AllInAlphabet(t)
    ensures AllInAlphabet(s + t)
  {
    hide InAlphabet;
  }

  /** Every byte string decodes back from its encoding, strictly. */
  lemma RoundTrip(bytes: Bytes)
    ensures DecodeAny(Encode(bytes)) == Some(bytes) && Decode(Encode(bytes)) == Some(bytes)
  {
    DecodeChunksOfEncode(bytes);
  }

  lemma EncodeStep(head: Bytes, tail: Bytes)
    requires |head| == 3
    ensures Encode(head + tail) == EncodeChunk(head) + Encode(tail)
  {
    hide EncodeChunk;
    assert (head + tail)[..3] == head && (head + tail)[3..] == tail;
  }

  lemma {:induction false} EncodeOfDecodeChunks(text: Bytes)
    requires |text| % 4 != 1 && AllInAlphabet(text)
    ensures Encode(DecodeChunks(text)) == ClearUnused(text)
  {
    if text == [] {
    } else if |text| < 4 {
      ChunkBack(text);
      DecodeOfOneChunk(text);
      hide *;
      EncodeOfOneChunk(DecodeChunk(text));
    } else {
      var head, tail := text[..4], text[4..];
      assert text == head + tail && |tail| % 4 != 1;
      assert AllInAlphabet(head) && AllInAlphabet(tail) by { hide InAlphabet; }
      hide *;
      ChunkBack(head);
      WholeChunksHaveNoUnusedBits(head);
      DecodeChunksStep(head, tail);
      EncodeStep(DecodeChunk(head), DecodeChunks(tail));
      EncodeOfDecodeChunks(tail);
      ClearUnusedOfTail(text);
    }
  }

  lemma WholeChunksHaveNoUnusedBits(chunk: Bytes)
    requires |chunk| == 4
    ensures ClearUnused(chunk) == chunk
  {
  }

  lemma ClearUnusedOfTail(text: Bytes)
    requires |text| >= 4 && |text| % 4 != 1
    ensures ClearUnused(text) == text[..4] + ClearUnused(text[4..])
  {
    hide SymbolAt, Symbol;
    var tail := text[4..];
    assert |text| % 4 == |tail| % 4;
    if |text| % 4 == 0 {
      assert text[..4] + tail == text;
    } else {
      SymbolAtIgnoresTheRest(text, |text| - 1, tail, |tail| - 1);
      assert text[..|text| - 1] == text[..4] + tail[..|tail| - 1];
    }
  }

  // ── Main results ───────────────────────────────────────────────────────────

  /** The decoder's re-encode comparison is the RFC's bit-level rule. */
  lemma StrictMeansCanonical(text: Bytes)
    ensures Decode(text).Some? <==> Canonical(text)
  {
    CanonicalEitherWay(text);
    if |text| % 4 != 1 && AllInAlphabet(text) {
      EncodeOfDecodeChunks(text);
      ClearedIsUnchanged(text);
    }
    hide DecodeChunks, Encode, Value, Symbol, SymbolAt, ClearUnused, RfcValue, Canonical;
  }

  lemma ClearedIsUnchanged(text: Bytes)
    requires |text| % 4 != 1 && AllInAlphabet(text)
    ensures ClearUnused(text) == text <==> CanonicalByTable(text)
  {
    hide Symbol, Value, SymbolAt;
    var last := |text| - 1;
    if |text| % 4 != 0 {
      var v := SymbolAt(text, last);
      var unused := if |text| % 4 == 2 then v % 16 else v % 4;
      SymbolAtSpells(text, last);
      AlphabetIsInjective(v, v - unused);
      assert ClearUnused(text)[last] == Symbol(v - unused);
      assert text[..last] + [text[last]] == text;
    }
  }

  /** One spelling per value. */
  lemma OneSpellingPerValue(text: Bytes, bytes: Bytes)
    ensures Decode(text) == Some(bytes) <==> text == Encode(bytes)
  {
    RoundTrip(bytes);
  }

  /** Two texts the lenient decoder accepts mean the same bytes exactly when they differ at most in the unused
      bits of the last symbol. */
  lemma LenientSpellingsAgree(t1: Bytes, t2: Bytes)
    requires DecodeAny(t1).Some? && DecodeAny(t2).Some?
    ensures DecodeAny(t1) == DecodeAny(t2) <==> ClearUnused(t1) == ClearUnused(t2)
  {
    EncodeOfDecodeChunks(t1);
    EncodeOfDecodeChunks(t2);
    RoundTrip(DecodeChunks(t1));
    RoundTrip(DecodeChunks(t2));
    hide Encode, DecodeChunks, Value, ClearUnused;
  }

  // ── What a text spells ─────────────────────────────────────────────────────

  function Pow64(n: nat): (p: nat)
    ensures p > 0
  {
    if n == 0 then 1 else 64 * Pow64(n - 1)
  }

  /** The number whose six-bit digits are the symbols of `text`, most significant first. */
  function SymbolNumber(text: Bytes): nat {
    if text == [] then 0 else SymbolNumber(text[..|text| - 1]) * 64 + SymbolAt(text, |text| - 1)
  }

  /** The weight of the zero bits the last symbol adds: four for one trailing byte, two for two. */
  function PadWeight(length: nat): nat {
    if length % 3 == 1 then 16 else if length % 3 == 2 then 4 else 1
  }

  lemma PadWeightHasPeriodThree(length: nat)
    requires length >= 3
    ensures PadWeight(length - 3) == PadWeight(length)
  {
  }

  lemma Regroup(x: int, w: int, p: int, r: int)
    ensures (x * w + r) * p == x * (w * p) + r * p == x * (p * w) + r * p
  {
  }

  lemma {:induction false} SymbolNumberAppend(a: Bytes, b: Bytes)
    ensures SymbolNumber(a + b) == Times(SymbolNumber(a), Pow64(|b|)) + SymbolNumber(b)
  {
    hide SymbolAt;
    if b == [] {
      assert a + b == a;
    } else {
      var init := b[..|b| - 1];
      assert (a + b)[..|a + b| - 1] == a + init;
      SymbolNumberAppend(a, init);
      SymbolAtIgnoresTheRest(a + b, |a + b| - 1, b, |b| - 1);
      Regroup(SymbolNumber(a), Pow64(|init|), 64, SymbolNumber(init));
    }
  }

  lemma SymbolAtIgnoresTheRest(s: Bytes, i: nat, t: Bytes, j: nat)
    requires i < |s| && j < |t| && s[i] == t[j]
    ensures SymbolAt(s, i) == SymbolAt(t, j)
  {
  }

  lemma {:induction false} FromBeAppend(a: Bytes, b: Bytes)
    ensures FromBe(a + b) == Times(FromBe(a), Pow256(|b|)) + FromBe(b)
  {
    if b == [] {
      assert a + b == a;
    } else {
      var init := b[..|b| - 1];
      assert (a + b)[..|a + b| - 1] == a + init;
      FromBeAppend(a, init);
      Regroup(FromBe(a), Pow256(|init|), 256, FromBe(init));
    }
  }

  /** One chunk is its 24-bit group, cut to the symbols it needs. */
  lemma ChunkNumber(chunk: Bytes)
    requires 1 <= |chunk| <= 3
    ensures SymbolNumber(EncodeChunk(chunk)) == FromBe(chunk) * PadWeight(|chunk|)
    ensures Pow64(|EncodeChunk(chunk)|) == Pow256(|chunk|) * PadWeight(|chunk|)
  {
    var text := EncodeChunk(chunk);
    EncodedSymbols(chunk);
    hide EncodeChunk, SymbolAt, ByteAt;
    SymbolNumberOfAtMostFour(text);
    FromBeOfAtMostThree(chunk);
    assert Pow64(2) == 0x1000 && Pow64(3) == 0x4_0000 && Pow64(4) == 0x100_0000;
    assert Pow256(1) == 0x100 && Pow256(2) == 0x1_0000 && Pow256(3) == 0x100_0000;
    hide SymbolNumber, FromBe, Pow64, Pow256;
  }

  lemma EncodedSymbols(chunk: Bytes)
    requires 1 <= |chunk| <= 3
    ensures var text := EncodeChunk(chunk);
            && (|chunk| == 1 ==> SymbolAt(text, 0) * 64 + SymbolAt(text, 1) == (chunk[0] as int) * 16)
            && (|chunk| == 2 ==> (SymbolAt(text, 0) * 64 + SymbolAt(text, 1)) * 64 + SymbolAt(text, 2) == ((chunk[0] as int) * 256 + chunk[1]) * 4)
            && (|chunk| == 3 ==> ((SymbolAt(text, 0) * 64 + SymbolAt(text, 1)) * 64 + SymbolAt(text, 2)) * 64 + SymbolAt(text, 3) == ((chunk[0] as int) * 256 + chunk[1]) * 256 + chunk[2])
  {
    hide Symbol, SymbolAt;
    var text, n := EncodeChunk(chunk), PackBytes(chunk);
    SymbolAtOfSymbol(text, 0, n / SymbolUnit(0) % 64);
    SymbolAtOfSymbol(text, 1, n / SymbolUnit(1) % 64);
    if |chunk| > 1 {
      SymbolAtOfSymbol(text, 2, n / SymbolUnit(2) % 64);
    }
    if |chunk| > 2 {
      SymbolAtOfSymbol(text, 3, n / SymbolUnit(3) % 64);
    }
    SextetNumbers(ByteAt(chunk, 0), ByteAt(chunk, 1), ByteAt(chunk, 2), n,
                  n / 0x4_0000 % 64, n / 0x1000 % 64, n / 0x40 % 64, n % 64);
    hide PackBytes, EncodeChunk;
  }

  /** The sextets of one, two or three bytes, read as a number. */
  lemma SextetNumbers(a: int, b: int, c: int, n: int, s0: int, s1: int, s2: int, s3: int)
    requires 0 <= a < 256 && 0 <= b < 256 && 0 <= c < 256 && n == a * 0x1_0000 + b * 0x100 + c
    requires s0 == n / 0x4_0000 % 64 && s1 == n / 0x1000 % 64 && s2 == n / 0x40 % 64 && s3 == n % 64
    ensures ((s0 * 64 + s1) * 64 + s2) * 64 + s3 == (a * 256 + b) * 256 + c
    ensures c == 0 ==> (s0 * 64 + s1) * 64 + s2 == (a * 256 + b) * 4
    ensures b == 0 && c == 0 ==> s0 * 64 + s1 == a * 16
  {
    SextetsOf(n);
    assert n / 0x4_0000 == a / 4;
    assert n / 0x1000 == a * 16 + b / 16;
    assert n / 0x40 == a * 0x400 + b * 4 + c / 64;
  }

  lemma SymbolNumberOfAtMostFour(t: Bytes)
    requires 2 <= |t| <= 4
    ensures SymbolNumber(t) == if |t| == 2 then SymbolAt(t, 0) * 64 + SymbolAt(t, 1)
                               else if |t| == 3 then (SymbolAt(t, 0) * 64 + SymbolAt(t, 1)) * 64 + SymbolAt(t, 2)
                               else ((SymbolAt(t, 0) * 64 + SymbolAt(t, 1)) * 64 + SymbolAt(t, 2)) * 64 + SymbolAt(t, 3)
  {
    forall i, k | 0 <= i < k <= |t|
      ensures SymbolAt(t[..k], i) == SymbolAt(t, i)
    {
      SymbolAtIgnoresTheRest(t[..k], i, t, i);
    }
    hide SymbolAt;
    assert t[..|t|] == t;
    assert t[..|t| - 1][..|t| - 2] == t[..|t| - 2];
    assert |t| > 2 ==> t[..|t| - 2][..|t| - 3] == t[..|t| - 3];
    assert SymbolNumber(t[..1]) == SymbolAt(t[..1], 0);
  }

  lemma FromBeOfAtMostThree(b: Bytes)
    requires 1 <= |b| <= 3
    ensures FromBe(b) == if |b| == 1 then b[0] as int else if |b| == 2 then (b[0] as int) * 256 + b[1]
                         else ((b[0] as int) * 256 + b[1]) * 256 + b[2]
  {
    assert b[..|b| - 1][..if |b| < 2 then 0 else |b| - 2] == b[..if |b| < 2 then 0 else |b| - 2];
    assert FromBe(b[..1]) == b[0];
  }

  /** The encoding is a change of base: the symbols spell the number the bytes spell, with as many zero bits
      behind it as fill the last symbol. */
  lemma {:induction false} EncodingIsAChangeOfBase(bytes: Bytes)
    ensures SymbolNumber(Encode(bytes)) == FromBe(bytes) * PadWeight(|bytes|)
    ensures Pow64(|Encode(bytes)|) == Pow256(|bytes|) * PadWeight(|bytes|)
  {
    if |bytes| >= 3 {
      var first, rest := bytes[..3], bytes[3..];
      var head, tail := EncodeChunk(first), Encode(rest);
      assert first + rest == bytes && Encode(bytes) == head + tail;
      EncodingIsAChangeOfBase(rest);
      ChunkNumber(first);
      PadWeightHasPeriodThree(|bytes|);
      hide Encode, EncodeChunk, SymbolNumber, FromBe, Pow64, Pow256;
      JoinedNumbers(first, rest, head, tail, PadWeight(|bytes|));
      JoinedWeights(|first|, |rest|, |head|, |tail|, PadWeight(|bytes|));
    } else if bytes != [] {
      ChunkNumber(bytes);
      assert bytes[..|bytes|] == bytes && bytes[|bytes|..] == [];
      assert Encode(bytes) == EncodeChunk(bytes) + [] == EncodeChunk(bytes);
      hide *;
    }
  }

  lemma JoinedWeights(m: nat, n: nat, h: nat, t: nat, p: nat)
    requires Pow64(h) == Pow256(m) && Pow64(t) == Times(Pow256(n), p)
    ensures Pow64(h + t) == Times(Pow256(m + n), p)
  {
    hide Times, Pow64, Pow256;
    Pow256Add(m, n);
    Pow64Add(h, t);
    TimesAssociates(Pow256(m), Pow256(n), p);
  }

  lemma JoinedNumbers(first: Bytes, rest: Bytes, head: Bytes, tail: Bytes, p: nat)
    requires SymbolNumber(head) == FromBe(first)
    requires SymbolNumber(tail) == Times(FromBe(rest), p) && Pow64(|tail|) == Times(Pow256(|rest|), p)
    ensures SymbolNumber(head + tail) == Times(FromBe(first + rest), p)
  {
    hide Times, Pow64, Pow256, SymbolNumber, FromBe;
    FromBeAppend(first, rest);
    SymbolNumberAppend(head, tail);
    TimesAssociates(FromBe(first), Pow256(|rest|), p);
    TimesDistributes(Times(FromBe(first), Pow256(|rest|)), FromBe(rest), p);
  }

  /** A product, named so that a proof can carry one without unfolding it. */
  function Times(a: int, b: int): int { a * b }

  lemma TimesAssociates(a: int, b: int, c: int)
    ensures Times(a, Times(b, c)) == Times(Times(a, b), c)
  {
  }

  lemma TimesDistributes(a: int, b: int, c: int)
    ensures Times(a + b, c) == Times(a, c) + Times(b, c)
  {
  }

  lemma {:induction false} Pow256Add(m: nat, n: nat)
    ensures Pow256(m + n) == Times(Pow256(m), Pow256(n))
  {
    if m > 0 {
      Pow256Add(m - 1, n);
    }
  }

  lemma {:induction false} Pow64Add(m: nat, n: nat)
    ensures Pow64(m + n) == Times(Pow64(m), Pow64(n))
  {
    if m > 0 {
      Pow64Add(m - 1, n);
    }
  }
}
