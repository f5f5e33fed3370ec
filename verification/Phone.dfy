/** The phone number signature of `tools/ci/sanitize_artifacts.py`: a regular expression between
    look-around conditions. Bytes are characters; `\w` is ASCII because the pattern is a bytes pattern. */
module Phone {
  import opened Regex

  predicate Digit(c: char) { '0' <= c <= '9' }

  predicate Hex(c: char) { Digit(c) || 'a' <= c <= 'f' || 'A' <= c <= 'F' }

  predicate Word(c: char) { Digit(c) || 'a' <= c <= 'z' || 'A' <= c <= 'Z' || c == '_' }

  const DIGIT := Chr(AnyOf({'0', '1', '2', '3', '4', '5', '6', '7', '8', '9'}))
  const NONZERO := Chr(AnyOf({'1', '2', '3', '4', '5', '6', '7', '8', '9'}))
  const SEPARATORS := AnyOf({' ', '\t', '(', ')', '/', '.', '-'})
  const SEPARATED := Star(Chr(SEPARATORS))

  /** `(?:\+|00)49[sep]*(?:0[sep]*)?` */
  const INTERNATIONAL := Cat(Alt(Lit('+'), Cat(Lit('0'), Lit('0'))),
    Cat(Lit('4'), Cat(Lit('9'), Cat(SEPARATED, Opt(Cat(Lit('0'), SEPARATED))))))

  /** `0(?:\)[ \t]*)?` */
  const TRUNK := Cat(Lit('0'), Opt(Cat(Lit(')'), Star(Chr(AnyOf({' ', '\t'}))))))

  /** `[sep]*[0-9]` */
  const STEP := Cat(SEPARATED, DIGIT)

  const NATIONAL := Cat(NONZERO, Cat(DIGIT, Repeat(STEP, 6, 11)))

  const NUMBER := Cat(Alt(INTERNATIONAL, TRUNK), NATIONAL)

  /** `(?<!\w)(?<![0-9]\.)(?<![0-9A-Fa-f]-)` */
  predicate MayStart(t: string, s: nat)
    requires s <= |t|
  {
    && !(s >= 1 && Word(t[s - 1]))
    && !(s >= 2 && Digit(t[s - 2]) && t[s - 1] == '.')
    && !(s >= 2 && Hex(t[s - 2]) && t[s - 1] == '-')
  }

  /** `(?!\w)(?!-[0-9A-Fa-f])(?!\.[0-9])` */
  predicate MayEnd(t: string, e: nat)
    requires e <= |t|
  {
    && !(e < |t| && Word(t[e]))
    && !(e + 1 < |t| && t[e] == '-' && Hex(t[e + 1]))
    && !(e + 1 < |t| && t[e] == '.' && Digit(t[e + 1]))
  }

  /** The pattern matches exactly `t[s..e]`. */
  predicate Match(t: string, s: nat, e: nat) {
    s <= e <= |t| && MayStart(t, s) && MayEnd(t, e) && Matches(NUMBER, t[s..e])
  }

  /** `PHONE_PATTERN.search(t)` finds something. */
  predicate HasPhone(t: string) {
    exists s, e :: 0 <= s <= e <= |t| && Match(t, s, e)
  }

  // ----- what a match can hold -----

  function Digits(s: string): nat {
    if s == [] then 0 else (if Digit(s[0]) then 1 else 0) + Digits(s[1..])
  }

  lemma {:induction false} DigitsCat(a: string, b: string)
    ensures Digits(a + b) == Digits(a) + Digits(b)
  {
    if a == [] {
      assert a + b == b;
    } else {
      assert (a + b)[1..] == a[1..] + b;
      DigitsCat(a[1..], b);
    }
  }

  predicate MayDigit(cs: CharSet) {
    cs.NoneOf? || exists c :: c in cs.chars && Digit(c)
  }

  /** Most digits a string of the language can hold; starred parts count as holding none. */
  function Cap(re: Re): nat {
    match re
    case Eps => 0
    case Chr(cs) => if MayDigit(cs) then 1 else 0
    case Cat(a, b) => Cap(a) + Cap(b)
    case Alt(a, b) => if Cap(a) < Cap(b) then Cap(b) else Cap(a)
    case Star(a) => 0
  }

  predicate StarsDigitless(re: Re) {
    match re
    case Cat(a, b) => StarsDigitless(a) && StarsDigitless(b)
    case Alt(a, b) => StarsDigitless(a) && StarsDigitless(b)
    case Star(a) => StarsDigitless(a) && Cap(a) == 0
    case _ => true
  }

  lemma {:induction false} AtMostCap(re: Re, s: string)
    requires StarsDigitless(re) && Matches(re, s)
    ensures Digits(s) <= Cap(re)
    decreases re, |s|
  {
    match re
    case Eps =>
    case Chr(cs) => assert s[1..] == [];
    case Cat(a, b) =>
      var k :| 0 <= k <= |s| && Matches(a, s[..k]) && Matches(b, s[k..]);
      AtMostCap(a, s[..k]);
      AtMostCap(b, s[k..]);
      assert s == s[..k] + s[k..];
      DigitsCat(s[..k], s[k..]);
    case Alt(a, b) =>
      if Matches(a, s) { AtMostCap(a, s); } else { AtMostCap(b, s); }
    case Star(a) =>
      if s != [] {
        var k :| 0 < k <= |s| && Matches(a, s[..k]) && Matches(re, s[k..]);
        AtMostCap(a, s[..k]);
        AtMostCap(re, s[k..]);
        assert s == s[..k] + s[k..];
        DigitsCat(s[..k], s[k..]);
      }
  }

  lemma {:induction false} CapRepeat(a: Re, min: nat, max: nat)
    requires min <= max && StarsDigitless(a)
    ensures Cap(Repeat(a, min, max)) == max * Cap(a) && StarsDigitless(Repeat(a, min, max))
    decreases max
  {
    if max > 0 {
      CapRepeat(a, if min == 0 then 0 else min - 1, max - 1);
    }
  }

  /** Every class of the expression lies within `allowed`. */
  predicate Over(re: Re, allowed: set<char>) {
    match re
    case Eps => true
    case Chr(cs) => cs.AnyOf? && cs.chars <= allowed
    case Cat(a, b) => Over(a, allowed) && Over(b, allowed)
    case Alt(a, b) => Over(a, allowed) && Over(b, allowed)
    case Star(a) => Over(a, allowed)
  }

  lemma {:induction false} WithinAlphabet(re: Re, s: string, allowed: set<char>)
    requires Over(re, allowed) && Matches(re, s)
    ensures forall i :: 0 <= i < |s| ==> s[i] in allowed
    decreases re, |s|
  {
    match re
    case Eps =>
    case Chr(cs) =>
    case Cat(a, b) =>
      var k :| 0 <= k <= |s| && Matches(a, s[..k]) && Matches(b, s[k..]);
      WithinAlphabet(a, s[..k], allowed);
      WithinAlphabet(b, s[k..], allowed);
      assert s == s[..k] + s[k..];
    case Alt(a, b) =>
      if Matches(a, s) { WithinAlphabet(a, s, allowed); } else { WithinAlphabet(b, s, allowed); }
    case Star(a) =>
      if s != [] {
        var k :| 0 < k <= |s| && Matches(a, s[..k]) && Matches(re, s[k..]);
        WithinAlphabet(a, s[..k], allowed);
        WithinAlphabet(re, s[k..], allowed);
        assert s == s[..k] + s[k..];
      }
  }

  lemma {:induction false} OverRepeat(a: Re, min: nat, max: nat, allowed: set<char>)
    requires min <= max && Over(a, allowed)
    ensures Over(Repeat(a, min, max), allowed)
    decreases max
  {
    if max > 0 {
      OverRepeat(a, if min == 0 then 0 else min - 1, max - 1, allowed);
    }
  }

  predicate EndsInDigit(s: string) { s != [] && Digit(s[|s| - 1]) }

  lemma StepEnds(s: string)
    requires Matches(STEP, s)
    ensures EndsInDigit(s)
  {
    var k :| 0 <= k <= |s| && Matches(SEPARATED, s[..k]) && Matches(DIGIT, s[k..]);
    assert s[k..][0] == s[k] && k == |s| - 1;
  }

  lemma {:induction false} RepeatEnds(min: nat, max: nat, s: string)
    requires min <= max && Matches(Repeat(STEP, min, max), s)
    ensures s == [] || EndsInDigit(s)
    ensures min > 0 ==> s != []
    decreases max
  {
    if max > 0 && !(min == 0 && s == []) {
      var rest := Repeat(STEP, if min == 0 then 0 else min - 1, max - 1);
      assert Matches(Cat(STEP, rest), s);
      var k :| 0 <= k <= |s| && Matches(STEP, s[..k]) && Matches(rest, s[k..]);
      StepEnds(s[..k]);
      RepeatEnds(if min == 0 then 0 else min - 1, max - 1, s[k..]);
      assert s == s[..k] + s[k..];
    }
  }

  lemma NumberEnds(s: string)
    requires Matches(NUMBER, s)
    ensures EndsInDigit(s)
  {
    hide Matches, Digit;
    var i := CatRest(Alt(INTERNATIONAL, TRUNK), NATIONAL, s);
    var j := CatRest(NONZERO, Cat(DIGIT, Repeat(STEP, 6, 11)), s[i..]);
    var k := CatRest(DIGIT, Repeat(STEP, 6, 11), s[i..][j..]);
    RepeatEnds(6, 11, s[i..][j..][k..]);
    SuffixEnds(s[i..][j..], k);
    SuffixEnds(s[i..], j);
    SuffixEnds(s, i);
  }

  lemma CatRest(a: Re, b: Re, s: string) returns (k: nat)
    requires Matches(Cat(a, b), s)
    ensures k <= |s| && Matches(b, s[k..])
  {
    k :| 0 <= k <= |s| && Matches(a, s[..k]) && Matches(b, s[k..]);
  }

  lemma SuffixEnds(s: string, k: nat)
    requires k <= |s| && EndsInDigit(s[k..])
    ensures EndsInDigit(s)
  {
  }

  const ALPHABET := {'0', '1', '2', '3', '4', '5', '6', '7', '8', '9', '+', ' ', '\t', '(', ')', '/', '.', '-'}

  /** A match holds at most 18 digits, ends in a digit, and holds no letter. */
  lemma NumberShape(s: string)
    requires Matches(NUMBER, s)
    ensures Digits(s) <= 18 && EndsInDigit(s)
    ensures forall i :: 0 <= i < |s| && Word(s[i]) ==> Digit(s[i])
  {
    hide Matches, Cap, Over, StarsDigitless, Digits;
    NumberEnds(s);
    NumberCap();
    AtMostCap(NUMBER, s);
    NumberAlphabet();
    WithinAlphabet(NUMBER, s, ALPHABET);
  }

  lemma NumberAlphabet()
    ensures Over(NUMBER, ALPHABET)
  {
    assert Over(INTERNATIONAL, ALPHABET) && Over(TRUNK, ALPHABET) by { PrefixAlphabet(); }
    assert Over(STEP, ALPHABET) && Over(NONZERO, ALPHABET) && Over(DIGIT, ALPHABET) by { DigitAlphabet(); }
    OverRepeat(STEP, 6, 11, ALPHABET);
  }

  lemma DigitAlphabet()
    ensures Over(STEP, ALPHABET) && Over(NONZERO, ALPHABET) && Over(DIGIT, ALPHABET) && Over(SEPARATED, ALPHABET)
  {
  }

  lemma PrefixAlphabet()
    ensures Over(INTERNATIONAL, ALPHABET) && Over(TRUNK, ALPHABET)
  {
    DigitAlphabet();
  }

  lemma SeparatedCap()
    ensures StarsDigitless(SEPARATED) && Cap(SEPARATED) == 0
    ensures StarsDigitless(STEP) && Cap(STEP) == 1
  {
    assert !MayDigit(SEPARATORS);
    assert Digit('0');
  }

  lemma InternationalCap()
    ensures StarsDigitless(INTERNATIONAL) && Cap(INTERNATIONAL) <= 5
  {
    hide Digit;
    SeparatedCap();
    PlusCap();
    var zero, tail := Lit('0'), Cat(Lit('4'), Cat(Lit('9'), Cat(SEPARATED, Opt(Cat(Lit('0'), SEPARATED)))));
    assert Cap(zero) <= 1 && Cap(tail) <= 3 && StarsDigitless(tail);
    assert Cap(Alt(Lit('+'), Cat(zero, zero))) <= 2;
  }

  lemma PlusCap()
    ensures Cap(Lit('+')) == 0 && Cap(Lit(')')) == 0 && Cap(Chr(AnyOf({' ', '\t'}))) == 0
  {
    assert !MayDigit(AnyOf({'+'})) && !MayDigit(AnyOf({')'})) && !MayDigit(AnyOf({' ', '\t'}));
  }

  lemma TrunkCap()
    ensures StarsDigitless(TRUNK) && Cap(TRUNK) <= 1
  {
    PlusCap();
  }

  lemma NumberCap()
    ensures StarsDigitless(NUMBER) && Cap(NUMBER) <= 18
  {
    hide Cap, StarsDigitless, MayDigit, Repeat;
    SeparatedCap();
    InternationalCap();
    TrunkCap();
    CapRepeat(STEP, 6, 11);
    NationalCap(Repeat(STEP, 6, 11));
    NumberParts(INTERNATIONAL, TRUNK, NATIONAL);
  }

  lemma NumberParts(a: Re, b: Re, n: Re)
    requires StarsDigitless(a) && StarsDigitless(b) && StarsDigitless(n)
    ensures StarsDigitless(Cat(Alt(a, b), n))
    ensures Cap(Cat(Alt(a, b), n)) == (if Cap(a) < Cap(b) then Cap(b) else Cap(a)) + Cap(n)
  {
  }

  lemma NationalCap(steps: Re)
    requires StarsDigitless(steps)
    ensures StarsDigitless(Cat(NONZERO, Cat(DIGIT, steps))) && Cap(Cat(NONZERO, Cat(DIGIT, steps))) <= 2 + Cap(steps)
  {
    TwoClasses(NONZERO.charset, DIGIT.charset, steps);
  }

  lemma TwoClasses(a: CharSet, b: CharSet, steps: Re)
    requires StarsDigitless(steps)
    ensures StarsDigitless(Cat(Chr(a), Cat(Chr(b), steps))) && Cap(Cat(Chr(a), Cat(Chr(b), steps))) <= 2 + Cap(steps)
  {
    assert Cap(Cat(Chr(b), steps)) <= 1 + Cap(steps);
    assert StarsDigitless(Cat(Chr(b), steps));
  }

  // ----- machine identifiers -----

  function HexDigits(s: string): nat {
    if s == [] then 0 else (if Hex(s[0]) then 1 else 0) + HexDigits(s[1..])
  }

  /** `t[u..v]` is hexadecimal digits joined by single hyphens. */
  predicate HexToken(t: string, u: nat, v: nat) {
    u < v <= |t| && forall i :: u <= i < v ==> HexOrJoin(t, u, v, i)
  }

  /** A hexadecimal digit, or a hyphen inside the token with hexadecimal digits on both sides. */
  predicate HexOrJoin(t: string, u: nat, v: nat, i: nat)
    requires u <= i < v <= |t|
  {
    Hex(t[i]) || (t[i] == '-' && u < i < v - 1 && Hex(t[i - 1]) && Hex(t[i + 1]))
  }

  lemma {:induction false} AllDigits(s: string)
    requires forall i :: 0 <= i < |s| && Word(s[i]) ==> Digit(s[i])
    ensures Digits(s) >= HexDigits(s)
  {
    if s != [] {
      AllDigits(s[1..]);
    }
  }

  lemma DigitsWithin(t: string, s: nat, e: nat, u: nat, v: nat)
    requires s <= u <= v <= e <= |t|
    ensures Digits(t[s..e]) >= Digits(t[u..v])
  {
    assert t[s..e] == t[s..u] + t[u..v] + t[v..e];
    DigitsCat(t[s..u] + t[u..v], t[v..e]);
    DigitsCat(t[s..u], t[u..v]);
  }

  lemma NoStartInside(t: string, s: nat, u: nat, v: nat)
    requires HexToken(t, u, v) && u < s < v
    ensures !MayStart(t, s)
  {
    assert HexOrJoin(t, u, v, s - 1);
  }

  lemma NoEndInside(t: string, e: nat, u: nat, v: nat)
    requires HexToken(t, u, v) && u < e < v
    ensures !MayEnd(t, e)
  {
    assert HexOrJoin(t, u, v, e);
  }

  lemma CoveringDigits(t: string, s: nat, e: nat, u: nat, v: nat)
    requires s <= u <= v <= e <= |t|
    requires forall i :: 0 <= i < |t[s..e]| && Word(t[s..e][i]) ==> Digit(t[s..e][i])
    ensures Digits(t[s..e]) >= HexDigits(t[u..v])
  {
    DigitsWithin(t, s, e, u, v);
    forall i | 0 <= i < v - u && Word(t[u..v][i]) ensures Digit(t[u..v][i]) {
      assert t[u..v][i] == t[s..e][u - s + i];
    }
    AllDigits(t[u..v]);
  }

  /** Main theorem: no phone match overlaps a hyphen-joined hexadecimal token of more than 18 digits,
      whatever stands around the token: trace identifiers, digests, full and truncated UUIDs. */
  lemma NoMatchOverlapsToken(t: string, s: nat, e: nat, u: nat, v: nat)
    requires Match(t, s, e) && HexToken(t, u, v) && HexDigits(t[u..v]) > 18
    ensures e <= u || v <= s
  {
    hide HexOrJoin, HexDigits, Digits, Matches, MayStart, MayEnd, Word, Digit;
    NumberShape(t[s..e]);
    if u < s < v {
      NoStartInside(t, s, u, v);
    } else if u < e < v {
      NoEndInside(t, e, u, v);
    } else if s <= u && v <= e {
      CoveringDigits(t, s, e, u, v);
    }
  }

  // ----- UUIDs -----

  /** An 8-4-4-4-12 UUID at index `u`. */
  predicate UuidAt(t: string, u: nat) {
    u + 36 <= |t| &&
    forall i :: u <= i < u + 36 ==> if i - u in [8, 13, 18, 23] then t[i] == '-' else Hex(t[i])
  }

  lemma {:induction false} HexDigitsCount(s: string, hyphens: seq<nat>)
    requires forall i :: 0 <= i < |s| ==> Hex(s[i]) || i in hyphens
    ensures HexDigits(s) + |hyphens| >= |s|
    decreases |hyphens|
  {
    if hyphens == [] {
      AllHex(s);
    } else {
      var k := hyphens[0];
      if k < |s| {
        HexDigitsSplit(s, k);
        var filled := s[k := '0'];
        forall i | 0 <= i < |filled| ensures Hex(filled[i]) || i in hyphens[1..] {
          assert i == k || filled[i] == s[i];
        }
        HexDigitsCount(filled, hyphens[1..]);
        HexDigitsSplit(filled, k);
        assert filled[..k] == s[..k] && filled[k + 1..] == s[k + 1..];
      } else {
        HexDigitsCount(s, hyphens[1..]);
      }
    }
  }

  lemma {:induction false} AllHex(s: string)
    requires forall i :: 0 <= i < |s| ==> Hex(s[i])
    ensures HexDigits(s) == |s|
  {
    if s != [] { AllHex(s[1..]); }
  }

  lemma {:induction false} HexDigitsSplit(s: string, k: nat)
    requires k < |s|
    ensures HexDigits(s) == HexDigits(s[..k]) + (if Hex(s[k]) then 1 else 0) + HexDigits(s[k + 1..])
  {
    if k > 0 {
      HexDigitsSplit(s[1..], k - 1);
      assert s[1..][..k - 1] == s[..k][1..] && s[1..][k..] == s[k + 1..];
    }
  }

  /** No phone match overlaps a UUID, in any surrounding text. */
  lemma NoMatchOverlapsUuid(t: string, s: nat, e: nat, u: nat)
    requires Match(t, s, e) && UuidAt(t, u)
    ensures e <= u || u + 36 <= s
  {
    var v := u + 36;
    forall i | u <= i < v ensures HexOrJoin(t, u, v, i) {
      assert if i - u in [8, 13, 18, 23] then t[i] == '-' && i > u && i + 1 < v && Hex(t[i - 1]) && Hex(t[i + 1]) else Hex(t[i]);
    }
    forall i | 0 <= i < 36 ensures Hex(t[u..v][i]) || i in [8, 13, 18, 23] {
      assert t[u..v][i] == t[u + i];
    }
    HexDigitsCount(t[u..v], [8, 13, 18, 23]);
    NoMatchOverlapsToken(t, s, e, u, v);
  }

  // ----- phone numbers are found -----

  lemma {:induction false} RepeatDigits(d: string, min: nat, max: nat)
    requires min <= |d| <= max && forall i :: 0 <= i < |d| ==> Digit(d[i])
    ensures Matches(Repeat(STEP, min, max), d)
    decreases max
  {
    if d != [] {
      var lower := if min == 0 then 0 else min - 1;
      RepeatDigits(d[1..], lower, max - 1);
      var first := d[..1];
      assert Matches(SEPARATED, first[..0]) && Matches(DIGIT, first[0..]) by { assert first[0..] == first; }
      assert Matches(STEP, d[..1]);
      assert Matches(Cat(STEP, Repeat(STEP, lower, max - 1)), d);
    }
  }

  lemma NationalDigits(d: string)
    requires 8 <= |d| <= 13 && d[0] != '0' && forall i :: 0 <= i < |d| ==> Digit(d[i])
    ensures Matches(NATIONAL, d)
  {
    hide Repeat;
    RepeatDigits(d[2..], 6, 11);
    assert Matches(NONZERO, d[..1]);
    var t := d[1..];
    assert t[1..] == d[2..] && Matches(DIGIT, t[..1]);
    assert Matches(Cat(DIGIT, Repeat(STEP, 6, 11)), t);
  }

  lemma TrunkMatches()
    ensures Matches(Alt(INTERNATIONAL, TRUNK), "0")
  {
    var trunk := "0";
    assert trunk[..1] == trunk && trunk[1..] == "";
    assert Matches(Lit('0'), trunk[..1]) && Matches(Eps, trunk[1..]);
    assert Matches(Opt(Cat(Lit(')'), Star(Chr(AnyOf({' ', '\t'}))))), trunk[1..]);
    assert Matches(TRUNK, trunk);
  }

  lemma NationalMatches(d: string)
    requires 8 <= |d| <= 13 && d[0] != '0' && forall i :: 0 <= i < |d| ==> Digit(d[i])
    ensures Matches(NUMBER, "0" + d)
  {
    var number := "0" + d;
    assert number[..1] == "0" && number[1..] == d;
    NationalDigits(d);
    TrunkMatches();
  }

  /** A number with trunk 0 behind a blank, at the end of the text or before a blank. */
  lemma NationalNumberEnds(before: string, d: string, after: string)
    requires 8 <= |d| <= 13 && d[0] != '0' && forall i :: 0 <= i < |d| ==> Digit(d[i])
    requires after == "" || after[0] == ' '
    ensures HasPhone(before + " 0" + d + after)
  {
    var t := before + " 0" + d + after;
    var s, e := |before| + 1, |before| + 2 + |d|;
    NationalMatches(d);
    assert t[s..e] == "0" + d;
    assert t[s - 1] == ' ' && (e < |t| ==> t[e] == ' ');
    hide Matches;
    assert Match(t, s, e);
  }

  /** The signature is not empty: a number with trunk 0 and 8 to 13 further digits between blanks is
      found in any text. */
  lemma NationalNumberFound(before: string, d: string, after: string)
    requires 8 <= |d| <= 13 && d[0] != '0' && forall i :: 0 <= i < |d| ==> Digit(d[i])
    ensures HasPhone(before + " 0" + d + " " + after)
  {
    hide HasPhone;
    NationalNumberEnds(before, d, " " + after);
    assert before + " 0" + d + " " + after == before + " 0" + d + (" " + after);
  }

  // ----- a text that is cut -----

  function Blanks(n: nat): string { seq(n, _ => ' ') }

  predicate Digitless(s: string) { forall i :: 0 <= i < |s| ==> !Digit(s[i]) }

  /** A text without digits holds no phone number. */
  lemma DigitlessIsNone(t: string)
    requires Digitless(t)
    ensures !HasPhone(t)
  {
    hide Matches;
    forall s: nat, e: nat ensures !Match(t, s, e) {
      if Match(t, s, e) {
        NumberEnds(t[s..e]);
      }
    }
  }

  /** A text without digits and then one run of more than 18 digits hold no phone number. */
  lemma LongRunIsNone(before: string, run: string)
    requires Digitless(before) && |run| > 18 && forall i :: 0 <= i < |run| ==> Digit(run[i])
    ensures !HasPhone(before + run)
  {
    var n, t := |before|, before + run;
    assert t[n..|t|] == run;
    AllHex(run);
    forall i | n <= i < |t| ensures HexOrJoin(t, n, |t|, i) {
      assert t[i] == run[i - n];
    }
    assert forall i :: 0 <= i < n ==> t[i] == before[i];
    forall s: nat, e: nat ensures !Match(t, s, e) {
      NotBeforeRun(t, n, s, e);
    }
  }

  lemma NotBeforeRun(t: string, n: nat, s: nat, e: nat)
    requires n <= |t| && (forall i :: 0 <= i < n ==> !Digit(t[i]))
    requires HexToken(t, n, |t|) && HexDigits(t[n..|t|]) > 18
    ensures !Match(t, s, e)
  {
    if Match(t, s, e) {
      NoMatchOverlapsToken(t, s, e, n, |t|);
      NumberEnds(t[s..e]);
    }
  }

  /** Cutting a text can expose a number: the whole run of digits is none, its first 14 digits are. */
  lemma CutExposesNumber(before: string, d: string, tail: string)
    requires Digitless(before) && |d| == 13 && d[0] != '0' && |tail| >= 5
    requires forall i :: 0 <= i < 13 ==> Digit(d[i])
    requires forall i :: 0 <= i < |tail| ==> Digit(tail[i])
    ensures var t := before + " 0" + d + tail;
            |t| == |before| + 15 + |tail| && !HasPhone(t) && HasPhone(t[..|before| + 15])
  {
    hide HasPhone;
    var t := before + " 0" + d + tail;
    var run := "0" + d + tail;
    assert t == (before + " ") + run;
    LongRunIsNone(before + " ", run);
    NationalNumberEnds(before, d, "");
    assert t[..|before| + 15] == before + " 0" + d + "";
  }

  // ----- exactly which texts hold a number, in terms of characters -----

  predicate Separator(c: char) { c == ' ' || c == '\t' || c == '(' || c == ')' || c == '/' || c == '.' || c == '-' }

  predicate Separators(s: string) { forall i :: 0 <= i < |s| ==> Separator(s[i]) }

  predicate BlanksOnly(s: string) { forall i :: 0 <= i < |s| ==> s[i] == ' ' || s[i] == '\t' }

  /** Digits with separators anywhere before a digit. */
  predicate Spread(s: string) {
    (forall i :: 0 <= i < |s| ==> Digit(s[i]) || Separator(s[i])) && (s == "" || Digit(s[|s| - 1]))
  }

  /** The national significant number: 8 to 13 digits, the first not 0, with separators before the third
      and any later digit. */
  predicate Significant(s: string) {
    |s| >= 2 && '1' <= s[0] <= '9' && Digit(s[1]) && Spread(s) && 8 <= Digits(s) <= 13
  }

  /** Separators, and perhaps a 0 with separators. */
  ghost predicate AfterCode(s: string) {
    Separators(s) || exists a, b :: Separators(a) && Separators(b) && s == a + "0" + b
  }

  /** `+49` or `0049` with separators and perhaps a 0 with separators, or a trunk 0, or `0)` with blanks. */
  ghost predicate Prefix(p: string) {
    || (exists r :: AfterCode(r) && (p == "+49" + r || p == "0049" + r))
    || p == "0"
    || (exists a :: BlanksOnly(a) && p == "0)" + a)
  }

  ghost predicate Number(s: string) {
    exists p, n :: s == p + n && Prefix(p) && Significant(n)
  }

  lemma DigitClass(s: string)
    ensures Matches(DIGIT, s) <==> |s| == 1 && Digit(s[0])
    ensures Matches(NONZERO, s) <==> |s| == 1 && '1' <= s[0] <= '9'
  {
  }

  lemma SeparatorClass(s: string)
    ensures Matches(SEPARATED, s) <==> Separators(s)
  {
    StarClass(SEPARATORS, s);
  }

  lemma StepExactly(s: string)
    ensures Matches(STEP, s) <==> s != "" && Separators(s[..|s| - 1]) && Digit(s[|s| - 1])
  {
    hide Digit, Matches, Separators;
    if s != "" && Separators(s[..|s| - 1]) && Digit(s[|s| - 1]) {
      SeparatorClass(s[..|s| - 1]);
      DigitClass(s[|s| - 1..]);
      PartsCat(SEPARATED, DIGIT, s[..|s| - 1], s[|s| - 1..]);
      assert s == s[..|s| - 1] + s[|s| - 1..];
    }
    if Matches(STEP, s) {
      var k := CatParts(SEPARATED, DIGIT, s);
      DigitClass(s[k..]);
      SeparatorClass(s[..k]);
      assert k == |s| - 1;
    }
  }

  lemma {:induction false} NoDigits(s: string)
    requires forall i :: 0 <= i < |s| ==> !Digit(s[i])
    ensures Digits(s) == 0
  {
    if s != [] { NoDigits(s[1..]); }
  }

  lemma SeparatorNoDigit(c: char)
    requires Separator(c)
    ensures !Digit(c)
  {
  }

  lemma OneDigit(c: char)
    requires Digit(c)
    ensures Digits([c]) == 1
  {
    assert [c][1..] == [];
  }

  lemma SeparatorsNoDigits(a: string)
    requires Separators(a)
    ensures Digits(a) == 0
  {
    forall i | 0 <= i < |a| ensures !Digit(a[i]) { SeparatorNoDigit(a[i]); }
    NoDigits(a);
  }

  lemma StepDigits(s: string)
    requires s != "" && Separators(s[..|s| - 1]) && Digit(s[|s| - 1])
    ensures Digits(s) == 1 && Spread(s)
  {
    var a, c := s[..|s| - 1], s[|s| - 1];
    SeparatorsNoDigits(a);
    OneDigit(c);
    DigitsCat(a, [c]);
    hide Digits, Digit, Separator;
    assert s == a + [c];
    assert forall i :: 0 <= i < |a| ==> s[i] == a[i];
  }

  lemma SpreadCat(a: string, b: string)
    requires Spread(a) && Spread(b)
    ensures Spread(a + b) && Digits(a + b) == Digits(a) + Digits(b)
  {
    hide Digit, Separator;
    DigitsCat(a, b);
  }

  lemma SpreadTail(s: string)
    requires Spread(s) && s != ""
    ensures Digit(s[0]) || (Separator(s[0]) && |s| > 1)
    ensures Spread(s[1..])
  {
    if |s| == 1 {
      SeparatorOrDigit(s[0]);
    }
    assert forall i :: 0 <= i < |s| - 1 ==> s[1..][i] == s[i + 1];
  }

  lemma SeparatorOrDigit(c: char)
    requires Digit(c) || Separator(c)
    ensures Digit(c) <==> !Separator(c)
  {
  }

  /** A nonempty spread text starts with one step, and the rest is spread. */
  lemma {:induction false} FirstStep(s: string) returns (k: nat)
    requires Spread(s) && s != ""
    ensures 0 < k <= |s| && Separators(s[..k - 1]) && Digit(s[k - 1]) && Spread(s[k..])
    ensures Digits(s) == 1 + Digits(s[k..])
    decreases |s|
  {
    hide Spread, Digit, Separator;
    SpreadTail(s);
    if Digit(s[0]) {
      k := 1;
      assert s[..0] == "";
    } else {
      var rest := FirstStep(s[1..]);
      k := rest + 1;
      assert s[1..][rest..] == s[k..];
      assert s[..k - 1] == [s[0]] + s[1..][..rest - 1];
    }
  }

  lemma {:induction false} RepeatExactly(min: nat, max: nat, s: string)
    requires min <= max
    ensures Matches(Repeat(STEP, min, max), s) <==> Spread(s) && min <= Digits(s) <= max
    decreases max
  {
    if Matches(Repeat(STEP, min, max), s) {
      RepeatSpread(min, max, s);
    }
    if Spread(s) && min <= Digits(s) <= max {
      SpreadRepeat(min, max, s);
    }
  }

  lemma {:induction false} RepeatSpread(min: nat, max: nat, s: string)
    requires min <= max && Matches(Repeat(STEP, min, max), s)
    ensures Spread(s) && min <= Digits(s) <= max
    decreases max
  {
    hide Digit, Separator;
    if max > 0 && !(min == 0 && s == "") {
      var rest := Repeat(STEP, if min == 0 then 0 else min - 1, max - 1);
      assert Matches(Cat(STEP, rest), s);
      var k := CatParts(STEP, rest, s);
      StepExactly(s[..k]);
      StepDigits(s[..k]);
      RepeatSpread(if min == 0 then 0 else min - 1, max - 1, s[k..]);
      SpreadCat(s[..k], s[k..]);
      assert s == s[..k] + s[k..];
    }
  }

  lemma CatParts(a: Re, b: Re, s: string) returns (k: nat)
    requires Matches(Cat(a, b), s)
    ensures k <= |s| && Matches(a, s[..k]) && Matches(b, s[k..])
  {
    k :| 0 <= k <= |s| && Matches(a, s[..k]) && Matches(b, s[k..]);
  }

  lemma PartsCat(a: Re, b: Re, x: string, y: string)
    requires Matches(a, x) && Matches(b, y)
    ensures Matches(Cat(a, b), x + y)
  {
    var s := x + y;
    assert s[..|x|] == x && s[|x|..] == y;
  }

  lemma {:induction false} SpreadRepeat(min: nat, max: nat, s: string)
    requires min <= max && Spread(s) && min <= Digits(s) <= max
    ensures Matches(Repeat(STEP, min, max), s)
    decreases max
  {
    hide Digit, Separator;
    if s != "" {
      var k := FirstStep(s);
      var lower := if min == 0 then 0 else min - 1;
      SpreadRepeat(lower, max - 1, s[k..]);
      assert s[..k][..k - 1] == s[..k - 1];
      StepExactly(s[..k]);
      PartsCat(STEP, Repeat(STEP, lower, max - 1), s[..k], s[k..]);
      assert s == s[..k] + s[k..];
    }
  }

  lemma NationalExactly(s: string)
    ensures Matches(NATIONAL, s) <==> Significant(s)
  {
    hide Repeat, Digit, Separator, Matches;
    var tail := Repeat(STEP, 6, 11);
    if |s| >= 2 {
      DigitClass(s[..1]);
      DigitClass(s[1..2]);
      RepeatExactly(6, 11, s[2..]);
      TwoDigitsThen(s);
    }
    if Matches(NATIONAL, s) {
      var i := CatParts(NONZERO, Cat(DIGIT, tail), s);
      var j := CatParts(DIGIT, tail, s[i..]);
      DigitClass(s[..i]);
      DigitClass(s[i..][..j]);
      assert i == 1 && j == 1 && s[1..][..1] == s[1..2] && s[1..][1..] == s[2..];
    }
    if Significant(s) {
      PartsCat(DIGIT, tail, s[1..2], s[2..]);
      assert s[1..2] + s[2..] == s[1..];
      PartsCat(NONZERO, Cat(DIGIT, tail), s[..1], s[1..]);
      assert s[..1] + s[1..] == s;
    }
  }

  lemma TwoDigitsThen(s: string)
    requires |s| >= 2
    ensures '1' <= s[0] <= '9' ==> Digit(s[0])
    ensures Digit(s[0]) && Digit(s[1]) ==> (Spread(s) <==> Spread(s[2..])) && Digits(s) == 2 + Digits(s[2..])
  {
    assert s[1..][1..] == s[2..];
    assert forall i :: 0 <= i < |s| - 2 ==> s[2..][i] == s[i + 2];
  }

  lemma LitExactly(c: char, s: string)
    ensures Matches(Lit(c), s) <==> s == [c]
  {
  }

  lemma OptExactly(a: Re, s: string)
    ensures Matches(Opt(a), s) <==> s == "" || Matches(a, s)
  {
  }

  /** `[sep]*(?:0[sep]*)?` */
  const AFTER_CODE := Cat(SEPARATED, Opt(Cat(Lit('0'), SEPARATED)))

  lemma AfterCodeExactly(s: string)
    ensures Matches(AFTER_CODE, s) <==> AfterCode(s)
  {
    hide Matches, Separators;
    var zero := Cat(Lit('0'), SEPARATED);
    if Matches(AFTER_CODE, s) {
      var k := CatParts(SEPARATED, Opt(zero), s);
      SeparatorClass(s[..k]);
      OptExactly(zero, s[k..]);
      if s[k..] == "" {
        assert s[..k] == s;
      } else {
        var j := CatParts(Lit('0'), SEPARATED, s[k..]);
        LitExactly('0', s[k..][..j]);
        SeparatorClass(s[k..][j..]);
        assert s == s[..k] + "0" + s[k..][j..];
      }
    }
    if Separators(s) {
      SeparatorClass(s);
      OptExactly(zero, "");
      PartsCat(SEPARATED, Opt(zero), s, "");
      assert s + "" == s;
    }
    if a, b :| Separators(a) && Separators(b) && s == a + "0" + b {
      SeparatorClass(a);
      SeparatorClass(b);
      LitExactly('0', "0");
      PartsCat(Lit('0'), SEPARATED, "0", b);
      OptExactly(zero, "0" + b);
      PartsCat(SEPARATED, Opt(zero), a, "0" + b);
      assert a + ("0" + b) == s;
    }
  }

  lemma Code49(s: string)
    ensures Matches(Cat(Lit('4'), Cat(Lit('9'), AFTER_CODE)), s) <==> |s| >= 2 && s[0] == '4' && s[1] == '9' && AfterCode(s[2..])
  {
    hide Matches, AfterCode;
    var nine := Cat(Lit('9'), AFTER_CODE);
    if Matches(Cat(Lit('4'), nine), s) {
      var i := CatParts(Lit('4'), nine, s);
      var j := CatParts(Lit('9'), AFTER_CODE, s[i..]);
      LitExactly('4', s[..i]);
      LitExactly('9', s[i..][..j]);
      AfterCodeExactly(s[i..][j..]);
      assert s[..1][0] == s[0] && s[1..][0] == s[1] && s[1..][1..] == s[2..];
    }
    if |s| >= 2 && s[0] == '4' && s[1] == '9' && AfterCode(s[2..]) {
      AfterCodeExactly(s[2..]);
      LitExactly('4', s[..1]);
      LitExactly('9', s[1..2]);
      PartsCat(Lit('9'), AFTER_CODE, s[1..2], s[2..]);
      assert s[1..2] + s[2..] == s[1..];
      PartsCat(Lit('4'), nine, s[..1], s[1..]);
      assert s[..1] + s[1..] == s;
    }
  }

  lemma CountryCode(s: string)
    ensures Matches(INTERNATIONAL, s) <==> exists r :: AfterCode(r) && (s == "+49" + r || s == "0049" + r)
  {
    hide Matches, AfterCode;
    var sign, rest := Alt(Lit('+'), Cat(Lit('0'), Lit('0'))), Cat(Lit('4'), Cat(Lit('9'), AFTER_CODE));
    if Matches(INTERNATIONAL, s) {
      var i := CatParts(sign, rest, s);
      var t := s[i..];
      Code49(t);
      ZerosExactly(s[..i]);
      CodeText(t);
      assert s == s[..i] + t;
    }
    if r :| AfterCode(r) && (s == "+49" + r || s == "0049" + r) {
      var t := "49" + r;
      assert t[2..] == r;
      Code49(t);
      ZerosExactly("+");
      ZerosExactly("00");
      CodeText(t);
      PartsCat(sign, rest, if s == "+49" + r then "+" else "00", t);
    }
  }

  lemma CodeText(t: string)
    requires |t| >= 2 && t[0] == '4' && t[1] == '9'
    ensures "+" + t == "+49" + t[2..] && "00" + t == "0049" + t[2..]
  {
  }

  lemma ZerosExactly(s: string)
    ensures Matches(Alt(Lit('+'), Cat(Lit('0'), Lit('0'))), s) <==> s == "+" || s == "00"
  {
    if Matches(Cat(Lit('0'), Lit('0')), s) {
      var k := CatParts(Lit('0'), Lit('0'), s);
      assert s == s[..k] + s[k..];
    }
    if s == "00" {
      assert "0" + "0" == "00";
      PartsCat(Lit('0'), Lit('0'), "0", "0");
    }
  }

  lemma TrunkExactly(s: string)
    ensures Matches(TRUNK, s) <==> s == "0" || exists a :: BlanksOnly(a) && s == "0)" + a
  {
    hide Matches;
    var blanks := Star(Chr(AnyOf({' ', '\t'})));
    var close := Cat(Lit(')'), blanks);
    if Matches(TRUNK, s) {
      var k := CatParts(Lit('0'), Opt(close), s);
      LitExactly('0', s[..k]);
      OptExactly(close, s[k..]);
      assert s == s[..k] + s[k..];
      if s[k..] != "" {
        var j := CatParts(Lit(')'), blanks, s[k..]);
        LitExactly(')', s[k..][..j]);
        StarClass(AnyOf({' ', '\t'}), s[k..][j..]);
        assert s == "0)" + s[k..][j..];
      }
    }
    LitExactly('0', "0");
    OptExactly(close, "");
    PartsCat(Lit('0'), Opt(close), "0", "");
    assert "0" + "" == "0";
    if a :| BlanksOnly(a) && s == "0)" + a {
      StarClass(AnyOf({' ', '\t'}), a);
      LitExactly(')', ")");
      PartsCat(Lit(')'), blanks, ")", a);
      OptExactly(close, ")" + a);
      PartsCat(Lit('0'), Opt(close), "0", ")" + a);
      assert "0" + (")" + a) == s;
    }
  }

  lemma PrefixExactly(p: string)
    ensures Matches(Alt(INTERNATIONAL, TRUNK), p) <==> Prefix(p)
  {
    AltExactly(INTERNATIONAL, TRUNK, p);
    hide Matches, AfterCode, BlanksOnly;
    CountryCode(p);
    TrunkExactly(p);
  }

  lemma AltExactly(a: Re, b: Re, s: string)
    ensures Matches(Alt(a, b), s) <==> Matches(a, s) || Matches(b, s)
  {
  }

  /** The expression accepts exactly the numbers written over characters. */
  lemma NumberExactly(s: string)
    ensures Matches(NUMBER, s) <==> Number(s)
  {
    hide Matches, Prefix, Significant;
    if Matches(NUMBER, s) {
      var k := CatParts(Alt(INTERNATIONAL, TRUNK), NATIONAL, s);
      PrefixExactly(s[..k]);
      NationalExactly(s[k..]);
      assert s == s[..k] + s[k..];
    }
    if p, n :| s == p + n && Prefix(p) && Significant(n) {
      PrefixExactly(p);
      NationalExactly(n);
      PartsCat(Alt(INTERNATIONAL, TRUNK), NATIONAL, p, n);
    }
  }

  /** Nothing before it makes the number a part of a word, of a fraction or of a hexadecimal token. */
  predicate OpenBefore(a: string) {
    a == "" || (!Word(a[|a| - 1]) &&
                (a[|a| - 1] == '.' ==> |a| == 1 || !Digit(a[|a| - 2])) &&
                (a[|a| - 1] == '-' ==> |a| == 1 || !Hex(a[|a| - 2])))
  }

  predicate OpenAfter(b: string) {
    b == "" || (!Word(b[0]) && (b[0] == '-' ==> |b| == 1 || !Hex(b[1])) && (b[0] == '.' ==> |b| == 1 || !Digit(b[1])))
  }

  ghost predicate NumberIn(t: string, a: string, n: string, b: string) {
    t == a + n + b && OpenBefore(a) && Number(n) && OpenAfter(b)
  }

  lemma MatchExactly(t: string, s: nat, e: nat)
    requires s <= e <= |t|
    ensures Match(t, s, e) <==> OpenBefore(t[..s]) && Number(t[s..e]) && OpenAfter(t[e..])
  {
    hide Matches, Number, Word, Hex, Digit;
    NumberExactly(t[s..e]);
  }

  /** The search, exactly: a text holds a phone number when it holds a number written in one of the
      documented ways between open sides. */
  lemma PhoneExactly(t: string)
    ensures HasPhone(t) <==> exists a, n, b :: NumberIn(t, a, n, b)
  {
    hide Match, Number, OpenBefore, OpenAfter;
    if s, e :| 0 <= s <= e <= |t| && Match(t, s, e) {
      MatchExactly(t, s, e);
      assert t == t[..s] + t[s..e] + t[e..];
      assert NumberIn(t, t[..s], t[s..e], t[e..]);
    }
    if a, n, b :| NumberIn(t, a, n, b) {
      var s, e := |a|, |a| + |n|;
      assert t[..s] == a && t[s..e] == n && t[e..] == b;
      MatchExactly(t, s, e);
    }
  }

  /** Every documented form is found between blanks in any text. */
  lemma DocumentedFormsFound(before: string, p: string, n: string, after: string)
    requires Prefix(p) && Significant(n)
    ensures HasPhone(before + " " + (p + n) + " " + after)
  {
    hide Prefix, Significant, HasPhone;
    var t := before + " " + (p + n) + " " + after;
    assert Number(p + n);
    assert t == (before + " ") + (p + n) + (" " + after);
    assert OpenBefore(before + " ") && OpenAfter(" " + after);
    assert NumberIn(t, before + " ", p + n, " " + after);
    PhoneExactly(t);
  }
}
