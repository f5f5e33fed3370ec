/** Media query lists in `apps/pwa/column-queries.ts`: splitting on top-level commas, and reading
    one condition made of width features. */
module MediaList {
  import opened Text

  // ----- the list -----

  /** Parenthesis depth after `c`. */
  function Deeper(depth: int, c: char): int {
    if c == '(' then depth + 1 else if c == ')' then depth - 1 else depth
  }

  function Trim(s: string): string { Strip(s, ScriptSpace) }

  /** The list from here on, with `current` collected since the last top-level comma. */
  function SplitFrom(s: string, depth: int, current: string): seq<string> {
    if s == [] then if Trim(current) != [] then [Trim(current)] else []
    else
      var d := Deeper(depth, s[0]);
      if s[0] == ',' && d == 0 then [Trim(current)] + SplitFrom(s[1..], d, "")
      else SplitFrom(s[1..], d, current + [s[0]])
  }

  lemma SplitStep(params: string, i: nat, depth: int, current: string)
    requires i < |params|
    ensures var c := params[i];
            var d := Deeper(depth, c);
            SplitFrom(params[i..], depth, current) ==
            if c == ',' && d == 0 then [Trim(current)] + SplitFrom(params[i + 1..], d, "")
            else SplitFrom(params[i + 1..], d, current + [c])
  {
    assert params[i..][0] == params[i] && params[i..][1..] == params[i + 1..];
  }

  lemma SplitEnd(params: string, depth: int, current: string)
    ensures SplitFrom(params[|params|..], depth, current) == if Trim(current) != [] then [Trim(current)] else []
  {
    assert params[|params|..] == [];
  }

  method SplitList(params: string) returns (parts: seq<string>)
    ensures parts == Conditions(params)
  {
    hide SplitFrom, Trim;
    parts := [];
    var depth := 0;
    var current := "";
    assert params[0..] == params;
    for i := 0 to |params|
      invariant parts + SplitFrom(params[i..], depth, current) == Conditions(params)
    {
      var character := params[i];
      SplitStep(params, i, depth, current);
      if character == '(' {
        depth := depth + 1;
      }
      if character == ')' {
        depth := depth - 1;
      }
      if character == ',' && depth == 0 {
        ListAssociate(parts, [Trim(current)], SplitFrom(params[i + 1..], depth, ""));
        parts := parts + [Trim(current)];
        current := "";
      } else {
        current := current + [character];
      }
    }
    SplitEnd(params, depth, current);
    if Trim(current) != [] {
      parts := parts + [Trim(current)];
    } else {
      assert parts + [] == parts;
    }
  }

  lemma ListAssociate(a: seq<string>, b: seq<string>, c: seq<string>)
    ensures a + (b + c) == a + b + c
  {
  }

  function Conditions(params: string): seq<string> { SplitFrom(params, 0, "") }

  /** Opening minus closing parentheses. */
  function Depth(s: string): int {
    if s == [] then 0 else Deeper(0, s[0]) + Depth(s[1..])
  }

  /** No comma at depth 0, starting at `depth`. */
  predicate TopFree(s: string, depth: int) {
    s == [] || ((s[0] == ',' ==> Deeper(depth, s[0]) != 0) && TopFree(s[1..], Deeper(depth, s[0])))
  }

  /** What splitting produces: trimmed parts without top-level commas, balanced up to the last one. */
  predicate ListShape(parts: seq<string>) {
    && (forall i :: 0 <= i < |parts| ==> TopFree(parts[i], 0) && Trimmed(parts[i], ScriptSpace))
    && (forall i :: 0 <= i < |parts| - 1 ==> Depth(parts[i]) == 0)
  }

  lemma {:induction false} DepthCat(a: string, b: string)
    ensures Depth(a + b) == Depth(a) + Depth(b)
  {
    if a == [] {
      assert a + b == b;
    } else {
      assert (a + b)[1..] == a[1..] + b;
      DepthCat(a[1..], b);
    }
  }

  lemma {:induction false} TopFreeCat(a: string, b: string, depth: int)
    ensures TopFree(a + b, depth) <==> TopFree(a, depth) && TopFree(b, depth + Depth(a))
  {
    if a == [] {
      assert a + b == b;
    } else {
      assert (a + b)[1..] == a[1..] + b;
      TopFreeCat(a[1..], b, Deeper(depth, a[0]));
    }
  }

  /** Trimming takes away no parenthesis and no comma. */
  lemma {:induction false} LeftTrimKeeps(s: string)
    ensures Depth(StripLeft(s, ScriptSpace)) == Depth(s)
    ensures TopFree(s, 0) ==> TopFree(StripLeft(s, ScriptSpace), 0)
  {
    if s != [] && ScriptSpace(s[0]) {
      LeftTrimKeeps(s[1..]);
    }
  }

  lemma {:induction false} RightTrimKeeps(s: string)
    ensures Depth(StripRight(s, ScriptSpace)) == Depth(s)
    ensures TopFree(s, 0) ==> TopFree(StripRight(s, ScriptSpace), 0)
  {
    if s != [] && ScriptSpace(s[|s| - 1]) {
      var t, last := s[..|s| - 1], s[|s| - 1..];
      RightTrimKeeps(t);
      assert s == t + last && last == [s[|s| - 1]];
      DepthCat(t, last);
      TopFreeCat(t, last, 0);
      assert last[1..] == [];
    }
  }

  lemma TrimKeeps(s: string)
    ensures Depth(Trim(s)) == Depth(s) && (TopFree(s, 0) ==> TopFree(Trim(s), 0)) && Trimmed(Trim(s), ScriptSpace)
  {
    LeftTrimKeeps(s);
    RightTrimKeeps(StripLeft(s, ScriptSpace));
  }

  lemma CollectOne(current: string, c: char, depth: int)
    requires TopFree(current, 0) && Depth(current) == depth && !(c == ',' && Deeper(depth, c) == 0)
    ensures TopFree(current + [c], 0) && Depth(current + [c]) == Deeper(depth, c)
  {
    DepthCat(current, [c]);
    TopFreeCat(current, [c], 0);
    assert [c][1..] == [];
  }

  lemma ShapeCons(p: string, parts: seq<string>)
    requires TopFree(p, 0) && Trimmed(p, ScriptSpace) && Depth(p) == 0 && ListShape(parts)
    ensures ListShape([p] + parts)
  {
    var all := [p] + parts;
    assert forall i :: 1 <= i < |all| ==> all[i] == parts[i - 1];
  }

  lemma NoParts()
    ensures ListShape([])
  {
  }

  lemma EmptyTopFree()
    ensures TopFree("", 0)
  {
  }

  lemma ShapeSingle(p: string)
    requires TopFree(p, 0) && Trimmed(p, ScriptSpace)
    ensures ListShape([p])
  {
  }

  /** Every text splits into such a list; a balanced text into balanced parts. */
  lemma {:induction false} SplitShape(s: string, depth: int, current: string)
    requires TopFree(current, 0) && Depth(current) == depth
    ensures ListShape(SplitFrom(s, depth, current))
    ensures depth + Depth(s) == 0 ==> forall p :: p in SplitFrom(s, depth, current) ==> Depth(p) == 0
  {
    hide Trim, ListShape, Trimmed, TopFree;
    TrimKeeps(current);
    if s == [] {
      NoParts();
      ShapeSingle(Trim(current));
    } else {
      var d := Deeper(depth, s[0]);
      if s[0] == ',' && d == 0 {
        EmptyTopFree();
        SplitShape(s[1..], 0, "");
        ShapeCons(Trim(current), SplitFrom(s[1..], 0, ""));
      } else {
        CollectOne(current, s[0], depth);
        SplitShape(s[1..], d, current + [s[0]]);
      }
    }
  }

  // ----- joining and splitting -----

  lemma {:induction false} SplitPart(part: string, rest: string, depth: int, current: string)
    requires TopFree(part, depth)
    ensures SplitFrom(part + rest, depth, current) == SplitFrom(rest, depth + Depth(part), current + part)
  {
    hide Trim;
    if part == [] {
      assert part + rest == rest && current + part == current;
    } else {
      assert (part + rest)[1..] == part[1..] + rest;
      SplitPart(part[1..], rest, Deeper(depth, part[0]), current + [part[0]]);
      assert current + [part[0]] + part[1..] == current + part;
    }
  }

  /** A blank in front of a part makes no difference. */
  lemma {:induction false} LeadingBlank(s: string, depth: int, current: string)
    ensures SplitFrom(s, depth, " " + current) == SplitFrom(s, depth, current)
  {
    hide Trim;
    TrimBlank(current);
    if s != [] && !(s[0] == ',' && Deeper(depth, s[0]) == 0) {
      LeadingBlank(s[1..], Deeper(depth, s[0]), current + [s[0]]);
      assert " " + (current + [s[0]]) == (" " + current) + [s[0]];
    }
  }

  lemma TrimBlank(s: string)
    ensures Trim(" " + s) == Trim(s)
  {
    assert (" " + s)[1..] == s;
  }

  /** The list without an empty last part. */
  function DropEmptyLast(parts: seq<string>): seq<string> {
    if parts != [] && parts[|parts| - 1] == "" then parts[..|parts| - 1] else parts
  }

  lemma ConditionsOfPart(p: string)
    requires TopFree(p, 0) && Trimmed(p, ScriptSpace)
    ensures Conditions(p) == if p == "" then [] else [p]
  {
    hide *;
    assert p + "" == p && "" + p == p;
    SplitPart(p, "", 0, "");
    AtEnd(p, 0 + Depth(p));
    ConditionsAre(p);
    TrimTrimmed(p);
  }

  lemma ConditionsAre(s: string)
    ensures Conditions(s) == SplitFrom(s, 0, "")
  {
  }

  lemma TrimTrimmed(s: string)
    requires Trimmed(s, ScriptSpace)
    ensures Trim(s) == s
  {
  }

  lemma AtEnd(current: string, depth: int)
    ensures SplitFrom("", depth, current) == if Trim(current) != [] then [Trim(current)] else []
  {
  }

  lemma ShapeTail(parts: seq<string>)
    requires ListShape(parts) && parts != []
    ensures ListShape(parts[1..]) && TopFree(parts[0], 0) && Trimmed(parts[0], ScriptSpace)
    ensures |parts| > 1 ==> Depth(parts[0]) == 0
  {
    hide TopFree, Trimmed, Depth;
    var rest := parts[1..];
    assert forall i :: 0 <= i < |rest| ==> rest[i] == parts[i + 1];
  }

  /** Splitting a joined list, exactly: it comes back, except for an empty last part. */
  lemma {:induction false} JoinThenSplit(parts: seq<string>)
    requires ListShape(parts)
    ensures Conditions(Join(parts, ", ")) == DropEmptyLast(parts)
  {
    hide ListShape, Conditions, TopFree, Trimmed, Depth;
    if parts == [] {
      NoConditions();
    } else {
      ShapeTail(parts);
      if |parts| == 1 {
        ConditionsOfPart(parts[0]);
      } else {
        JoinThenSplit(parts[1..]);
        OnePartThenRest(parts[0], Join(parts[1..], ", "));
        assert parts == [parts[0]] + parts[1..];
        DropCons(parts[0], parts[1..]);
      }
    }
  }

  lemma NoConditions()
    ensures Conditions("") == []
  {
  }

  lemma DropCons(p: string, rest: seq<string>)
    requires rest != []
    ensures DropEmptyLast([p] + rest) == [p] + DropEmptyLast(rest)
  {
  }

  lemma AtComma(joined: string, current: string)
    ensures SplitFrom(", " + joined, 0, current) == [Trim(current)] + SplitFrom(" " + joined, 0, "")
  {
    assert (", " + joined)[1..] == " " + joined;
  }

  lemma AtBlank(joined: string)
    ensures SplitFrom(" " + joined, 0, "") == SplitFrom(joined, 0, " ")
  {
    assert (" " + joined)[1..] == joined;
    assert "" + [' '] == " ";
  }

  lemma OnePartThenRest(p: string, joined: string)
    requires TopFree(p, 0) && Trimmed(p, ScriptSpace) && Depth(p) == 0
    ensures Conditions(p + ", " + joined) == [p] + Conditions(joined)
  {
    hide SplitFrom, TopFree, Depth;
    assert p + ", " + joined == p + (", " + joined) && "" + p == p;
    SplitPart(p, ", " + joined, 0, "");
    AtComma(joined, p);
    AtBlank(joined);
    LeadingBlank(joined, 0, "");
    assert " " + "" == " ";
  }

  /** The round trip: nonempty, trimmed, balanced parts without top-level commas. */
  lemma SplitUndoesJoin(parts: seq<string>)
    requires forall i :: 0 <= i < |parts| ==>
      parts[i] != "" && Trimmed(parts[i], ScriptSpace) && Depth(parts[i]) == 0 && TopFree(parts[i], 0)
    ensures Conditions(Join(parts, ", ")) == parts
  {
    JoinThenSplit(parts);
  }

  // ----- one condition -----

  /** One width feature; lengths keep their text. */
  datatype Bound =
    | Upper(length: string, strict: bool)
    | Lower(length: string, strict: bool)
    | Between(low: string, lowStrict: bool, high: string, highStrict: bool)

  function LowerCase(c: char): char {
    if 'A' <= c <= 'Z' then ((c as int) + 32) as char else c
  }

  function SkipSpace(s: string): string { StripLeft(s, ScriptSpace) }

  /** The rest after the word, read without regard to case. */
  function AfterWord(s: string, word: string): Option<string> {
    if word == [] then Some(s)
    else if s != [] && LowerCase(s[0]) == word[0] then AfterWord(s[1..], word[1..])
    else None
  }

  function NumberLength(s: string): (n: nat)
    ensures n <= |s|
  {
    if s != [] && ('0' <= s[0] <= '9' || s[0] == '.') then 1 + NumberLength(s[1..]) else 0
  }

  /** `[\d.]+(?:px|rem|em)`: the text of the length and the rest. */
  function LengthAt(s: string): Option<(string, string)> {
    var n := NumberLength(s);
    if n == 0 then None
    else
      var tail := s[n..];
      if AfterWord(tail, "px").Some? || AfterWord(tail, "em").Some? then (if |tail| >= 2 then Some((s[..n + 2], tail[2..])) else None)
      else if AfterWord(tail, "rem").Some? then (if |tail| >= 3 then Some((s[..n + 3], tail[3..])) else None)
      else None
  }

  /** `<=?` or `>=?`: whether it is strict, and the rest. */
  function CompareAt(s: string, sign: char): Option<(bool, string)> {
    if s == [] || s[0] != sign then None
    else if |s| >= 2 && s[1] == '=' then Some((false, s[2..]))
    else Some((true, s[1..]))
  }

  /** `\s*\)$` */
  predicate Closes(s: string) { SkipSpace(s) == ")" }

  /** `\s*LENGTH\s*\)$` */
  function LastLength(s: string): Option<string> {
    var l := LengthAt(SkipSpace(s));
    if l.Some? && Closes(l.value.1) then Some(l.value.0) else None
  }

  /** `\s*:\s*LENGTH\s*\)$` */
  function AfterColon(s: string): Option<string> {
    var t := SkipSpace(s);
    if t != [] && t[0] == ':' then LastLength(t[1..]) else None
  }

  /** The seven patterns of `FEATURES`, on a trimmed part. */
  function Feature(part: string): Option<Bound> {
    if part == [] || part[0] != '(' then None
    else
      var s := SkipSpace(part[1..]);
      var maxWidth, minWidth, width, first := AfterWord(s, "max-width"), AfterWord(s, "min-width"), AfterWord(s, "width"), LengthAt(s);
      if maxWidth.Some? then
        var l := AfterColon(maxWidth.value);
        if l.Some? then Some(Upper(l.value, false)) else None
      else if minWidth.Some? then
        var l := AfterColon(minWidth.value);
        if l.Some? then Some(Lower(l.value, false)) else None
      else if width.Some? then WidthFirst(SkipSpace(width.value))
      else if first.Some? then LengthFirst(first.value.0, SkipSpace(first.value.1))
      else None
  }

  /** `(width < 5px)` and `(width > 5px)` */
  function WidthFirst(s: string): Option<Bound> {
    var less, more := CompareAt(s, '<'), CompareAt(s, '>');
    if less.Some? then
      var l := LastLength(less.value.1);
      if l.Some? then Some(Upper(l.value, less.value.0)) else None
    else if more.Some? then
      var l := LastLength(more.value.1);
      if l.Some? then Some(Lower(l.value, more.value.0)) else None
    else None
  }

  /** `(5px > width)`, `(5px < width)` and `(5px < width < 9px)` */
  function LengthFirst(length: string, s: string): Option<Bound> {
    var less, more := CompareAt(s, '<'), CompareAt(s, '>');
    if more.Some? then
      var w := AfterWord(SkipSpace(more.value.1), "width");
      if w.Some? && Closes(w.value) then Some(Upper(length, more.value.0)) else None
    else if less.Some? then
      var w := AfterWord(SkipSpace(less.value.1), "width");
      if w.None? then None
      else if Closes(w.value) then Some(Lower(length, less.value.0))
      else
        var again := CompareAt(SkipSpace(w.value), '<');
        if again.None? then None
        else
          var l := LastLength(again.value.1);
          if l.Some? then Some(Between(length, less.value.0, l.value, again.value.0)) else None
    else None
  }

  /** Length of a match of `\s+and\s+` at the start of `s`, or 0. */
  function Separator(s: string): (n: nat)
    ensures n <= |s|
  {
    var t := SkipSpace(s);
    if |t| == |s| || AfterWord(t, "and").None? || |t| < 3 then 0
    else
      var u := SkipSpace(t[3..]);
      if |u| == |t[3..]| then 0 else |s| - |u|
  }

  /** `split(/\s+and\s+/i)` from here on, with `current` collected so far. */
  function ConjunctsFrom(s: string, current: string): seq<string>
    decreases |s|
  {
    if s == [] then [current]
    else if Separator(s) > 0 then [current] + ConjunctsFrom(s[Separator(s)..], "")
    else ConjunctsFrom(s[1..], current + [s[0]])
  }

  function Conjuncts(condition: string): seq<string> { ConjunctsFrom(Trim(condition), "") }

  datatype Kind = NotWidth | Max | Other

  /** The bounds of a condition made only of width features. */
  function Bounds(parts: seq<string>): Option<seq<Bound>> {
    if parts == [] then Some([])
    else
      var first, rest := Feature(Trim(parts[|parts| - 1])), Bounds(parts[..|parts| - 1]);
      if rest.None? || first.None? then None else Some(rest.value + [first.value])
  }

  /** `widthCondition`: null, "max" or "other". */
  method WidthCondition(condition: string) returns (kind: Kind)
    ensures kind == KindOf(condition)
  {
    hide Feature, Conjuncts, Trim;
    var parts := Conjuncts(condition);
    var bounds: seq<Bound> := [];
    for i := 0 to |parts|
      invariant Bounds(parts[..i]) == Some(bounds)
    {
      var feature := Feature(Trim(parts[i]));
      assert parts[..i + 1][..i] == parts[..i];
      if feature.None? {
        NoBounds(parts, i + 1);
        return NotWidth;
      }
      bounds := bounds + [feature.value];
    }
    assert parts[..|parts|] == parts;
    if AllUpper(bounds) {
      return Max;
    }
    return Other;
  }

  lemma {:induction false} NoBounds(parts: seq<string>, n: nat)
    requires n <= |parts| && Bounds(parts[..n]).None?
    ensures Bounds(parts).None?
    decreases |parts| - n
  {
    if n == |parts| {
      assert parts[..n] == parts;
    } else {
      assert parts[..n + 1][..n] == parts[..n];
      NoBounds(parts, n + 1);
    }
  }

  predicate AllUpper(bounds: seq<Bound>) {
    forall i :: 0 <= i < |bounds| ==> bounds[i].Upper?
  }

  function KindOf(condition: string): Kind {
    var bounds := Bounds(Conjuncts(condition));
    if bounds.None? then NotWidth else if AllUpper(bounds.value) then Max else Other
  }
}
