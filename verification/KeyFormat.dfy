/** The encryption key format: `key_fingerprint` of `tools/backup/manifest.py` and the re-encoding of
    legacy keys in `tools/dx/generate_secrets.py`. Base64url without padding as in sections 3.2, 3.5
    and 5 of RFC 4648. */
module KeyFormat {
  import opened Text

  type Byte = b: int | 0 <= b < 256

  type Sextet = v: int | 0 <= v < 64

  // ----- the URL-safe alphabet -----

  function Symbol(v: Sextet): char {
    if v < 26 then ('A' as int + v) as char
    else if v < 52 then ('a' as int + v - 26) as char
    else if v < 62 then ('0' as int + v - 52) as char
    else if v == 62 then '-' else '_'
  }

  predicate InAlphabet(c: char) {
    'A' <= c <= 'Z' || 'a' <= c <= 'z' || '0' <= c <= '9' || c == '-' || c == '_'
  }

  function ValueOf(c: char): Sextet
    requires InAlphabet(c)
  {
    if 'A' <= c <= 'Z' then c as int - 'A' as int
    else if 'a' <= c <= 'z' then c as int - 'a' as int + 26
    else if '0' <= c <= '9' then c as int - '0' as int + 52
    else if c == '-' then 62 else 63
  }

  lemma SymbolValue(v: Sextet)
    ensures InAlphabet(Symbol(v)) && ValueOf(Symbol(v)) == v
  {
  }

  lemma ValueSymbol(c: char)
    requires InAlphabet(c)
    ensures Symbol(ValueOf(c)) == c
  {
  }

  // Table 2 of section 5 of RFC 4648.
  const UPPER := "ABCDEFGHIJKLMNOPQRSTUVWXYZ"
  const LOWER := "abcdefghijklmnopqrstuvwxyz"
  const OTHERS := "0123456789-_"
  const ALPHABET := UPPER + LOWER + OTHERS

  lemma UpperTable(v: Sextet)
    requires v < 26
    ensures |UPPER| == 26 && Symbol(v) == UPPER[v]
  {
  }

  lemma LowerTable(v: Sextet)
    requires 26 <= v < 52
    ensures |LOWER| == 26 && Symbol(v) == LOWER[v - 26]
  {
  }

  lemma OtherTable(v: Sextet)
    requires 52 <= v
    ensures |OTHERS| == 12 && Symbol(v) == OTHERS[v - 52]
  {
  }

  lemma SymbolTable(v: Sextet)
    ensures |ALPHABET| == 64 && Symbol(v) == ALPHABET[v]
  {
    hide UPPER, LOWER, OTHERS, Symbol;
    UpperTable(0);
    LowerTable(26);
    OtherTable(52);
    if v < 26 {
      UpperTable(v);
    } else if v < 52 {
      LowerTable(v);
    } else {
      OtherTable(v);
    }
  }

  predicate Encoded(s: string) {
    forall i :: 0 <= i < |s| ==> InAlphabet(s[i])
  }

  // ----- coding -----

  /** Three bytes as four symbols. */
  function Quad(x: Byte, y: Byte, z: Byte): string {
    [Symbol(x / 4), Symbol(x % 4 * 16 + y / 16), Symbol(y % 16 * 4 + z / 64), Symbol(z % 64)]
  }

  /** Four symbols as three bytes. */
  function Triple(a: Sextet, c: Sextet, d: Sextet, e: Sextet): seq<Byte> {
    [a * 4 + c / 16, c % 16 * 16 + d / 4, d % 4 * 64 + e]
  }

  /** `urlsafe_b64encode(bytes).rstrip("=")`: a rest of one or two bytes is filled with zero bits. */
  function Encode(b: seq<Byte>): string {
    if b == [] then ""
    else if |b| == 1 then Quad(b[0], 0, 0)[..2]
    else if |b| == 2 then Quad(b[0], b[1], 0)[..3]
    else Quad(b[0], b[1], b[2]) + Encode(b[3..])
  }

  /** `urlsafe_b64decode` of the padded text: bits left over at the end are dropped. */
  function Decode(s: string): seq<Byte>
    requires Encoded(s)
  {
    if |s| < 2 then []
    else if |s| == 2 then Triple(ValueOf(s[0]), ValueOf(s[1]), 0, 0)[..1]
    else if |s| == 3 then Triple(ValueOf(s[0]), ValueOf(s[1]), ValueOf(s[2]), 0)[..2]
    else Triple(ValueOf(s[0]), ValueOf(s[1]), ValueOf(s[2]), ValueOf(s[3])) + Decode(s[4..])
  }

  /** The bits that decoding drops are zero. */
  predicate ZeroTail(s: string)
    requires Encoded(s)
  {
    (|s| % 4 == 2 ==> ValueOf(s[|s| - 1]) % 16 == 0) && (|s| % 4 == 3 ==> ValueOf(s[|s| - 1]) % 4 == 0)
  }

  lemma QuadEncoded(x: Byte, y: Byte, z: Byte)
    ensures |Quad(x, y, z)| == 4 && Encoded(Quad(x, y, z))
  {
    SymbolValue(x / 4);
    SymbolValue(x % 4 * 16 + y / 16);
    SymbolValue(y % 16 * 4 + z / 64);
    SymbolValue(z % 64);
    hide Symbol, InAlphabet, ValueOf;
  }

  lemma EncodedCat(a: string, b: string)
    requires Encoded(a) && Encoded(b)
    ensures Encoded(a + b)
  {
    hide InAlphabet;
  }

  lemma {:induction false} EncodedLength(b: seq<Byte>)
    ensures Encoded(Encode(b)) && |Encode(b)| == |b| / 3 * 4 + (if |b| % 3 == 0 then 0 else |b| % 3 + 1)
  {
    hide Quad, InAlphabet;
    if |b| >= 3 {
      EncodedLength(b[3..]);
      QuadEncoded(b[0], b[1], b[2]);
      EncodedCat(Quad(b[0], b[1], b[2]), Encode(b[3..]));
    } else if |b| == 2 {
      QuadEncoded(b[0], b[1], 0);
    } else if |b| == 1 {
      QuadEncoded(b[0], 0, 0);
    }
  }

  // ----- the symbols, one by one -----

  function ByteAt(b: seq<Byte>, i: nat): Byte { if i < |b| then b[i] else 0 }

  /** Group `g` of three bytes as one number; missing bytes are zero. */
  function Group(b: seq<Byte>, g: nat): nat {
    ByteAt(b, 3 * g) * 65536 + ByteAt(b, 3 * g + 1) * 256 + ByteAt(b, 3 * g + 2)
  }

  /** The weight of symbol `j` of a group. */
  function Weight(j: nat): nat { if j == 0 then 262144 else if j == 1 then 4096 else if j == 2 then 64 else 1 }

  lemma By4096(n: nat, q: nat, r: nat)
    requires n == q * 4096 + r && r < 4096
    ensures n / 4096 == q && n % 4096 == r
  {
  }

  lemma By262144(n: nat, q: nat, r: nat)
    requires n == q * 262144 + r && r < 262144
    ensures n / 262144 == q && n % 262144 == r
  {
  }

  /** The number of a group, shifted by 6, 12 and 18 bits. */
  lemma Shifts(x: Byte, y: Byte, z: Byte)
    ensures var n := x * 65536 + y * 256 + z;
            n / 64 == x * 1024 + y * 4 + z / 64 && n / 4096 == x * 16 + y / 16 && n / 262144 == x / 4 && n % 64 == z % 64
  {
    var n := x * 65536 + y * 256 + z;
    By64(x * 1024 + y * 4 + z / 64, z % 64);
    assert n == (x * 1024 + y * 4 + z / 64) * 64 + z % 64;
    By4096(n, x * 16 + y / 16, y % 16 * 256 + z);
    By262144(n, x / 4, x % 4 * 65536 + y * 256 + z);
  }

  lemma ShiftedSextets(x: Byte, y: Byte, z: Byte)
    ensures (x * 16 + y / 16) % 64 == x % 4 * 16 + y / 16
    ensures (x * 1024 + y * 4 + z / 64) % 64 == y % 16 * 4 + z / 64
  {
    By64(x / 4, x % 4 * 16 + y / 16);
    assert x * 16 + y / 16 == x / 4 * 64 + (x % 4 * 16 + y / 16);
    By64(x * 16 + y / 16, y % 16 * 4 + z / 64);
    assert x * 1024 + y * 4 + z / 64 == (x * 16 + y / 16) * 64 + (y % 16 * 4 + z / 64);
  }

  lemma QuadTable(x: Byte, y: Byte, z: Byte, j: nat)
    requires j < 4
    ensures |ALPHABET| == 64 && Quad(x, y, z)[j] == ALPHABET[(x * 65536 + y * 256 + z) / Weight(j) % 64]
  {
    hide ALPHABET, Symbol;
    Shifts(x, y, z);
    ShiftedSextets(x, y, z);
    var n := x * 65536 + y * 256 + z;
    if j == 0 {
      assert n / 262144 % 64 == x / 4;
      SymbolTable(x / 4);
    } else if j == 1 {
      SymbolTable(x % 4 * 16 + y / 16);
    } else if j == 2 {
      SymbolTable(y % 16 * 4 + z / 64);
    } else {
      SymbolTable(z % 64);
    }
  }

  /** Every symbol of an encoded text, as section 4 of RFC 4648 defines it: the 24-bit number of its group,
      shifted, looked up in the alphabet. */
  lemma {:induction false} EncodeTable(b: seq<Byte>, i: nat)
    requires i < |Encode(b)|
    ensures |ALPHABET| == 64 && Encode(b)[i] == ALPHABET[Group(b, i / 4) / Weight(i % 4) % 64]
  {
    hide *;
    QuadLength(b);
    if |b| >= 3 && i >= 4 {
      EncodeTable(b[3..], i - 4);
      GroupLater(b, i / 4);
      assert (i - 4) / 4 == i / 4 - 1 && (i - 4) % 4 == i % 4;
      assert Encode(b)[4..][i - 4] == Encode(b)[i];
    } else {
      assert i / 4 == 0 && i % 4 == i;
      FirstQuad(b, i);
      FirstGroup(b);
      QuadTable(ByteAt(b, 0), ByteAt(b, 1), ByteAt(b, 2), i);
    }
  }

  lemma FirstQuad(b: seq<Byte>, i: nat)
    requires i < |Encode(b)| && i < 4
    ensures Encode(b)[i] == Quad(ByteAt(b, 0), ByteAt(b, 1), ByteAt(b, 2))[i]
  {
    hide Symbol;
  }

  lemma FirstGroup(b: seq<Byte>)
    ensures Group(b, 0) == ByteAt(b, 0) * 65536 + ByteAt(b, 1) * 256 + ByteAt(b, 2)
  {
  }

  lemma QuadLength(b: seq<Byte>)
    ensures |b| >= 3 ==> |Encode(b)| == 4 + |Encode(b[3..])| && Encode(b)[4..] == Encode(b[3..])
    ensures |b| < 3 ==> |Encode(b)| <= 3
  {
  }

  lemma GroupLater(b: seq<Byte>, g: nat)
    requires |b| >= 3 && g > 0
    ensures Group(b, g) == Group(b[3..], g - 1)
  {
  }

  lemma BytesBack(x: Byte, y: Byte, z: Byte)
    ensures Triple(x / 4, x % 4 * 16 + y / 16, y % 16 * 4 + z / 64, z % 64) == [x, y, z]
  {
  }

  /** Decoding four symbols undoes encoding three bytes. */
  lemma TripleQuad(x: Byte, y: Byte, z: Byte)
    ensures |Quad(x, y, z)| == 4 && Encoded(Quad(x, y, z))
    ensures var q := Quad(x, y, z); Triple(ValueOf(q[0]), ValueOf(q[1]), ValueOf(q[2]), ValueOf(q[3])) == [x, y, z]
  {
    QuadEncoded(x, y, z);
    SymbolValue(x / 4);
    SymbolValue(x % 4 * 16 + y / 16);
    SymbolValue(y % 16 * 4 + z / 64);
    SymbolValue(z % 64);
    BytesBack(x, y, z);
    hide Symbol, InAlphabet, ValueOf;
  }

  lemma SextetsBack(a: Sextet, c: Sextet, d: Sextet, e: Sextet)
    ensures var t := Triple(a, c, d, e); Quad(t[0], t[1], t[2]) == [Symbol(a), Symbol(c), Symbol(d), Symbol(e)]
  {
    hide Symbol;
    By4(a, c / 16);
    assert c / 16 < 4;
    By16(c % 16, d / 4);
    assert d / 4 < 16;
    By64(d % 4, e);
  }

  lemma By4(high: nat, low: nat)
    requires low < 4
    ensures (high * 4 + low) / 4 == high && (high * 4 + low) % 4 == low
  {
  }

  lemma By16(high: nat, low: nat)
    requires low < 16
    ensures (high * 16 + low) / 16 == high && (high * 16 + low) % 16 == low
  {
  }

  lemma By64(high: nat, low: nat)
    requires low < 64
    ensures (high * 64 + low) / 64 == high && (high * 64 + low) % 64 == low
  {
  }

  /** Decoding undoes encoding. */
  lemma {:induction false} DecodeEncode(b: seq<Byte>)
    ensures Encoded(Encode(b)) && Decode(Encode(b)) == b
  {
    EncodedLength(b);
    hide Quad, ValueOf, InAlphabet, Triple;
    if |b| >= 3 {
      DecodeEncode(b[3..]);
      TripleQuad(b[0], b[1], b[2]);
      assert Encode(b)[4..] == Encode(b[3..]);
      assert b == [b[0], b[1], b[2]] + b[3..];
    } else if |b| == 2 {
      TripleQuad(b[0], b[1], 0);
      LastTwo(b[0], b[1]);
      assert b == [b[0], b[1]];
    } else if |b| == 1 {
      TripleQuad(b[0], 0, 0);
      LastOne(b[0]);
      assert b == [b[0]];
    }
  }

  /** The symbols left out carry no bits. */
  lemma LastTwo(x: Byte, y: Byte)
    ensures Encoded(Quad(x, y, 0)) && var q := Quad(x, y, 0);
            Triple(ValueOf(q[0]), ValueOf(q[1]), ValueOf(q[2]), 0)[..2] == [x, y]
  {
    QuadEncoded(x, y, 0);
    SymbolValue(x / 4);
    SymbolValue(x % 4 * 16 + y / 16);
    SymbolValue(y % 16 * 4);
    BytesBack(x, y, 0);
    hide Symbol, InAlphabet, ValueOf;
  }

  lemma LastOne(x: Byte)
    ensures Encoded(Quad(x, 0, 0)) && var q := Quad(x, 0, 0); Triple(ValueOf(q[0]), ValueOf(q[1]), 0, 0)[..1] == [x]
  {
    QuadEncoded(x, 0, 0);
    SymbolValue(x / 4);
    SymbolValue(x % 4 * 16);
    BytesBack(x, 0, 0);
    hide Symbol, InAlphabet, ValueOf;
  }

  lemma {:induction false} DecodedLength(s: string)
    requires Encoded(s) && |s| % 4 != 1
    ensures |Decode(s)| == |s| / 4 * 3 + (if |s| % 4 == 0 then 0 else |s| % 4 - 1)
  {
    if |s| >= 4 {
      DecodedLength(s[4..]);
    }
  }

  lemma EncodeTriple(x: Byte, y: Byte, z: Byte, rest: seq<Byte>)
    ensures Encode([x, y, z] + rest) == Quad(x, y, z) + Encode(rest)
  {
    hide Quad;
    assert ([x, y, z] + rest)[3..] == rest;
  }

  lemma SymbolsBack(a: char, c: char, d: char, e: char)
    requires InAlphabet(a) && InAlphabet(c) && InAlphabet(d) && InAlphabet(e)
    ensures var t := Triple(ValueOf(a), ValueOf(c), ValueOf(d), ValueOf(e)); Quad(t[0], t[1], t[2]) == [a, c, d, e]
  {
    ValueSymbol(a);
    ValueSymbol(c);
    ValueSymbol(d);
    ValueSymbol(e);
    SextetsBack(ValueOf(a), ValueOf(c), ValueOf(d), ValueOf(e));
  }

  lemma DecodeFour(s: string)
    requires Encoded(s) && |s| >= 4
    ensures Decode(s) == Triple(ValueOf(s[0]), ValueOf(s[1]), ValueOf(s[2]), ValueOf(s[3])) + Decode(s[4..])
  {
    hide ValueOf, Triple;
  }

  lemma EncodeFirst(t: seq<Byte>, rest: seq<Byte>)
    requires |t| == 3
    ensures Encode(t + rest) == Quad(t[0], t[1], t[2]) + Encode(rest)
  {
    assert t == [t[0], t[1], t[2]];
    EncodeTriple(t[0], t[1], t[2], rest);
  }

  lemma QuadBack(s: string)
    requires Encoded(s) && |s| >= 4
    ensures Encode(Decode(s)) == s[..4] + Encode(Decode(s[4..]))
  {
    hide Encode, Decode, Triple, Quad, ValueOf, Symbol, InAlphabet;
    SymbolsBack(s[0], s[1], s[2], s[3]);
    DecodeFour(s);
    TripleLength(ValueOf(s[0]), ValueOf(s[1]), ValueOf(s[2]), ValueOf(s[3]));
    EncodeFirst(Triple(ValueOf(s[0]), ValueOf(s[1]), ValueOf(s[2]), ValueOf(s[3])), Decode(s[4..]));
    assert s[..4] == [s[0], s[1], s[2], s[3]];
  }

  lemma TripleLength(a: Sextet, c: Sextet, d: Sextet, e: Sextet)
    ensures |Triple(a, c, d, e)| == 3
  {
  }

  /** The last symbol of a short group loses its spare bits. */
  lemma SpareBits(a: Sextet, c: Sextet, d: Sextet)
    ensures Triple(a, c, d / 4 * 4, 0) == [a * 4 + c / 16, c % 16 * 16 + d / 4, 0]
    ensures Triple(a, c / 16 * 16, 0, 0) == [a * 4 + c / 16, 0, 0]
  {
  }

  lemma DecodeThree(s: string, a: int, c: int, d: int)
    requires Encoded(s) && |s| == 3 && a == ValueOf(s[0]) && c == ValueOf(s[1]) && d == ValueOf(s[2])
    ensures Decode(s) == [a * 4 + c / 16, c % 16 * 16 + d / 4]
  {
    hide ValueOf, InAlphabet;
  }

  lemma DecodeTwo(s: string, a: int, c: int)
    requires Encoded(s) && |s| == 2 && a == ValueOf(s[0]) && c == ValueOf(s[1])
    ensures Decode(s) == [a * 4 + c / 16]
  {
    hide ValueOf, InAlphabet;
  }

  /** Three symbols keep all their bits but the last two. */
  lemma ThreeBack(s: string)
    requires Encoded(s) && |s| == 3
    ensures Encode(Decode(s)) == [s[0], s[1], Symbol(ValueOf(s[2]) / 4 * 4)]
  {
    hide Encode, Decode, Triple, Quad, ValueOf, Symbol, InAlphabet;
    var a: int, c: int, d: int := ValueOf(s[0]), ValueOf(s[1]), ValueOf(s[2]);
    DecodeThree(s, a, c, d);
    EncodeShort(a * 4 + c / 16, c % 16 * 16 + d / 4);
    ValueSymbol(s[0]);
    ValueSymbol(s[1]);
    SextetsBack(a, c, d / 4 * 4, 0);
    SpareBits(a, c, d);
  }

  lemma TwoBack(s: string)
    requires Encoded(s) && |s| == 2
    ensures Encode(Decode(s)) == [s[0], Symbol(ValueOf(s[1]) / 16 * 16)]
  {
    hide Encode, Decode, Triple, Quad, ValueOf, Symbol, InAlphabet;
    var a: int, c: int := ValueOf(s[0]), ValueOf(s[1]);
    DecodeTwo(s, a, c);
    EncodeShort(a * 4 + c / 16, 0);
    ValueSymbol(s[0]);
    SextetsBack(a, c / 16 * 16, 0, 0);
    SpareBits(a, c, 0);
  }

  lemma EncodeShort(x: Byte, y: Byte)
    ensures Encode([x, y]) == Quad(x, y, 0)[..3] && Encode([x]) == Quad(x, 0, 0)[..2]
  {
    hide Symbol;
  }

  lemma SameSymbol(v: Sextet, c: char)
    requires InAlphabet(c)
    ensures Symbol(v) == c <==> v == ValueOf(c)
  {
    SymbolValue(v);
    ValueSymbol(c);
  }

  lemma ShortBack(s: string)
    requires Encoded(s) && (|s| == 2 || |s| == 3)
    ensures Encode(Decode(s)) == s <==> ZeroTail(s)
  {
    hide Encode, Decode, Symbol, InAlphabet, ValueOf;
    if |s| == 3 {
      ThreeBack(s);
      SameSymbol(ValueOf(s[2]) / 4 * 4, s[2]);
      assert s == [s[0], s[1], s[2]];
    } else {
      TwoBack(s);
      SameSymbol(ValueOf(s[1]) / 16 * 16, s[1]);
      assert s == [s[0], s[1]];
    }
  }

  lemma CutFour(s: string)
    requires |s| >= 4
    ensures s == s[..4] + s[4..] && (|s| > 4 ==> s[4..][|s| - 5] == s[|s| - 1])
  {
  }

  /** Encoding undoes decoding exactly when no dropped bit is set. */
  lemma {:induction false} EncodeDecode(s: string)
    requires Encoded(s) && |s| % 4 != 1
    ensures Encode(Decode(s)) == s <==> ZeroTail(s)
  {
    hide Symbol, ValueOf, InAlphabet, Encode, Decode;
    if |s| >= 4 {
      EncodeDecode(s[4..]);
      QuadBack(s);
      CutFour(s);
      SameHead(s[..4], Encode(Decode(s[4..])), s[4..]);
    } else if |s| >= 2 {
      ShortBack(s);
    } else {
      EmptyBack();
    }
  }

  lemma EmptyBack()
    ensures Encode(Decode("")) == ""
  {
  }

  lemma SameHead(h: string, x: string, y: string)
    ensures h + x == h + y <==> x == y
  {
    if h + x == h + y {
      assert x == (h + x)[|h|..] && y == (h + y)[|h|..];
    }
  }

  // ----- the key -----

  const PREFIX := "emdash_enc_v1_"
  const BODY_LENGTH := 43
  const KEY_BYTES := 32

  /** `CMS_KEY.fullmatch` */
  predicate MatchesKey(key: string) {
    |key| == |PREFIX| + BODY_LENGTH && PREFIX <= key && Encoded(key[|PREFIX|..])
  }

  /** `key_fingerprint`: None stands for the error, `hash` for SHA-256 of the key text. */
  function KeyFingerprint(key: Option<string>, hash: string -> string): Option<string> {
    if key.None? || !MatchesKey(key.value) then None
    else
      var body := key.value[|PREFIX|..];
      var decoded := Decode(body);
      if |decoded| != KEY_BYTES || Encode(decoded) != body then None
      else Some(hash(key.value))
  }

  function KeyText(b: seq<Byte>): string { PREFIX + Encode(b) }

  lemma KeyTextBody(b: seq<Byte>)
    ensures KeyText(b)[|PREFIX|..] == Encode(b) && PREFIX <= KeyText(b) && |KeyText(b)| == |PREFIX| + |Encode(b)|
  {
  }

  /** Canonicity: the accepted keys are exactly the unpadded encodings of 32 bytes. */
  lemma AcceptsCanonicalKeys(key: string, hash: string -> string)
    ensures KeyFingerprint(Some(key), hash).Some? <==> exists b: seq<Byte> :: |b| == 32 && key == "emdash_enc_v1_" + Encode(b)
    ensures KeyFingerprint(Some(key), hash).Some? ==> KeyFingerprint(Some(key), hash) == Some(hash(key))
    ensures KeyFingerprint(None, hash).None?
  {
    hide Encode, Decode;
    if KeyFingerprint(Some(key), hash).Some? {
      var body := key[|PREFIX|..];
      var decoded := Decode(body);
      assert key == PREFIX + body;
      assert |decoded| == KEY_BYTES && key == KeyText(decoded);
    }
    if b: seq<Byte> :| |b| == KEY_BYTES && key == KeyText(b) {
      KeyTextBody(b);
      EncodedLength(b);
      DecodeEncode(b);
      assert MatchesKey(key);
    }
  }

  /** One key text for every 32 bytes. */
  lemma OneTextPerKey(a: seq<Byte>, b: seq<Byte>)
    ensures KeyText(a) == KeyText(b) <==> a == b
  {
    hide Encode, Decode;
    KeyTextBody(a);
    KeyTextBody(b);
    DecodeEncode(a);
    DecodeEncode(b);
  }

  /** What the second test adds to the first: of the texts that match the pattern, the accepted ones
      are those whose last symbol has its two spare bits clear. */
  lemma AcceptedByLastSymbol(key: string, hash: string -> string)
    requires MatchesKey(key)
    ensures KeyFingerprint(Some(key), hash).Some? <==> ValueOf(key[|key| - 1]) % 4 == 0
  {
    hide Encode, Decode, ValueOf, InAlphabet;
    var body := key[|PREFIX|..];
    assert |body| == BODY_LENGTH && body[|body| - 1] == key[|key| - 1];
    DecodedLength(body);
    EncodeDecode(body);
  }

  // ----- legacy keys -----

  function HexValue(c: char): (v: int)
    requires LowerHex(c)
    ensures 0 <= v < 16
  {
    if c <= '9' then c as int - '0' as int else c as int - 'a' as int + 10
  }

  /** `bytes.fromhex` */
  function FromHex(s: string): seq<Byte>
    requires HexText(s) && |s| % 2 == 0
  {
    if s == [] then [] else [HexValue(s[0]) * 16 + HexValue(s[1])] + FromHex(s[2..])
  }

  const KEY_NAME := "CMS_ENCRYPTION_KEY"

  predicate LegacyKey(value: string) { Hex64(value) }

  /** The value written for an existing entry: only a legacy key is re-encoded. */
  function Upgrade(name: string, existing: string): string {
    if name == KEY_NAME && LegacyKey(existing) then KeyText(FromHex(existing)) else existing
  }

  lemma {:induction false} HexLength(s: string)
    requires HexText(s) && |s| % 2 == 0
    ensures |FromHex(s)| == |s| / 2
  {
    if s != [] {
      HexLength(s[2..]);
    }
  }

  const HEX_DIGITS := "0123456789abcdef"

  /** Two digits for every byte, the high one first. */
  lemma {:induction false} HexDigits(s: string, i: nat)
    requires HexText(s) && |s| % 2 == 0 && 2 * i < |s|
    ensures |FromHex(s)| == |s| / 2 && |HEX_DIGITS| == 16
    ensures s[2 * i] == HEX_DIGITS[FromHex(s)[i] / 16] && s[2 * i + 1] == HEX_DIGITS[FromHex(s)[i] % 16]
  {
    hide HexValue, HEX_DIGITS;
    HexLength(s);
    if i == 0 {
      FirstByte(s);
      DigitOf(s[0]);
      DigitOf(s[1]);
    } else {
      HexDigits(s[2..], i - 1);
      assert s[2..][2 * (i - 1)] == s[2 * i] && s[2..][2 * (i - 1) + 1] == s[2 * i + 1];
    }
  }

  lemma FirstByte(s: string)
    requires HexText(s) && |s| % 2 == 0 && s != ""
    ensures FromHex(s) != [] && FromHex(s)[0] / 16 == HexValue(s[0]) && FromHex(s)[0] % 16 == HexValue(s[1])
  {
    hide HexValue;
  }

  lemma DigitOf(c: char)
    requires LowerHex(c)
    ensures |HEX_DIGITS| == 16 && HEX_DIGITS[HexValue(c)] == c
  {
  }

  /** The key is accepted and stands for these bytes. */
  predicate AcceptedWithBytes(key: string, bytes: seq<Byte>, hash: string -> string) {
    KeyFingerprint(Some(key), hash) == Some(hash(key)) && MatchesKey(key) && Decode(key[|PREFIX|..]) == bytes
  }

  lemma KeyTextAccepted(b: seq<Byte>, hash: string -> string)
    requires |b| == KEY_BYTES
    ensures AcceptedWithBytes(KeyText(b), b, hash)
  {
    hide Encode, Decode;
    AcceptsCanonicalKeys(KeyText(b), hash);
    KeyTextBody(b);
    DecodeEncode(b);
  }

  /** Every legacy key is re-encoded to an accepted key with the same bytes. */
  lemma UpgradedKeyAccepted(existing: string, hash: string -> string)
    requires LegacyKey(existing)
    ensures AcceptedWithBytes(Upgrade("CMS_ENCRYPTION_KEY", existing), FromHex(existing), hash)
  {
    hide AcceptedWithBytes, KeyText, HexText, FromHex;
    HexLength(existing);
    KeyTextAccepted(FromHex(existing), hash);
  }

  /** No value is a legacy key after upgrading. */
  lemma NeverLegacyAfter(existing: string)
    ensures !LegacyKey(Upgrade(KEY_NAME, existing))
  {
    hide Encode;
    if LegacyKey(existing) {
      var key := KeyText(FromHex(existing));
      assert key[6] == PREFIX[6] == '_';
      assert !LowerHex(key[6]);
    }
  }
}
