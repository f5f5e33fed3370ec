/** Regular expressions over characters, with their usual meaning as sets of strings. */
module Regex {

  datatype CharSet = AnyOf(chars: set<char>) | NoneOf(chars: set<char>) {
    predicate Has(c: char) {
      match this
      case AnyOf(cs) => c in cs
      case NoneOf(cs) => c !in cs
    }

    predicate All(s: string) {
      forall i :: 0 <= i < |s| ==> Has(s[i])
    }
  }

  datatype Re =
    | Eps
    | Chr(charset: CharSet)
    | Cat(left: Re, right: Re)
    | Alt(left: Re, right: Re)
    | Star(body: Re)

  /** `s` as a whole belongs to the language of `re`. */
  predicate Matches(re: Re, s: string)
    decreases re, |s|
  {
    match re
    case Eps => s == []
    case Chr(cs) => |s| == 1 && cs.Has(s[0])
    case Cat(a, b) => exists k :: 0 <= k <= |s| && Matches(a, s[..k]) && Matches(b, s[k..])
    case Alt(a, b) => Matches(a, s) || Matches(b, s)
    case Star(a) => s == [] || exists k :: 0 < k <= |s| && Matches(a, s[..k]) && Matches(re, s[k..])
  }

  function Lit(c: char): Re { Chr(AnyOf({c})) }

  /** `a?` */
  function Opt(a: Re): Re { Alt(Eps, a) }

  /** `a{min,max}` */
  function Repeat(a: Re, min: nat, max: nat): Re
    requires min <= max
    decreases max
  {
    if max == 0 then Eps
    else if min == 0 then Alt(Eps, Cat(a, Repeat(a, 0, max - 1)))
    else Cat(a, Repeat(a, min - 1, max - 1))
  }

  /** The concatenation of a list of expressions. */
  function CatAll(res: seq<Re>): Re {
    if res == [] then Eps else Cat(res[0], CatAll(res[1..]))
  }

  /** A starred character class accepts exactly the strings over that class. */
  lemma {:induction false} StarClass(cs: CharSet, s: string)
    ensures Matches(Star(Chr(cs)), s) <==> cs.All(s)
    decreases |s|
  {
    if s != [] {
      StarClass(cs, s[1..]);
      if cs.All(s) {
        assert Matches(Chr(cs), s[..1]);
        assert Matches(Star(Chr(cs)), s[1..]);
      }
      if Matches(Star(Chr(cs)), s) {
        var k :| 0 < k <= |s| && Matches(Chr(cs), s[..k]) && Matches(Star(Chr(cs)), s[k..]);
        assert s == [s[0]] + s[1..];
      }
    }
  }
}
