/**
 * `RegExp.prototype.test` for the unanchored patterns the site validator applies to a
 * page: a pattern is a sequence of terms, each a literal character, a character class
 * or whitespace, possibly repeated. A pattern occurs in a text when some start
 * position admits a match; every way of splitting the text among the repetitions
 * is tried, as backtracking does.
 */
module Patterns {
  import opened Strings

  datatype Atom =
    | Char(c: char)
    | OneOf(cs: set<char>)
    | NoneOf(cs: set<char>)
    | Space

  /** One atom, `atom+`, `atom*`, `atom?`, or the group `([...]|$)`. */
  datatype Term =
    | One(a: Atom)
    | Plus(a: Atom)
    | Star(a: Atom)
    | Opt(a: Atom)
    | OneOfOrEnd(cs: set<char>)

  /** Under the `i` flag literal ASCII letters match either case. */
  predicate AtomMatches(a: Atom, c: char, ignoreCase: bool) {
    match a
    case Char(x) => if ignoreCase then LowerChar(c) == LowerChar(x) else c == x
    case OneOf(cs) => c in cs
    case NoneOf(cs) => c !in cs
    case Space => IsSpace(c)
  }

  /** A literal text, one term per character. */
  function Text(w: string): (ts: seq<Term>)
    ensures |ts| == |w| && forall k :: 0 <= k < |w| ==> ts[k] == One(Char(w[k]))
  {
    if w == [] then [] else [One(Char(w[0]))] + Text(w[1..])
  }

  /** The terms `ts` match some prefix of `s[i..]`. */
  predicate MatchAt(ts: seq<Term>, s: string, i: nat, ignoreCase: bool)
    requires i <= |s|
    decreases |ts|, |s| - i
  {
    if ts == [] then true
    else
      match ts[0]
      case One(a) => i < |s| && AtomMatches(a, s[i], ignoreCase) && MatchAt(ts[1..], s, i + 1, ignoreCase)
      case Plus(a) =>
        i < |s| && AtomMatches(a, s[i], ignoreCase) && MatchAt([Star(a)] + ts[1..], s, i + 1, ignoreCase)
      case Star(a) =>
        MatchAt(ts[1..], s, i, ignoreCase) ||
        (i < |s| && AtomMatches(a, s[i], ignoreCase) && MatchAt(ts, s, i + 1, ignoreCase))
      case Opt(a) =>
        MatchAt(ts[1..], s, i, ignoreCase) ||
        (i < |s| && AtomMatches(a, s[i], ignoreCase) && MatchAt(ts[1..], s, i + 1, ignoreCase))
      case OneOfOrEnd(cs) =>
        if i == |s| then MatchAt(ts[1..], s, i, ignoreCase)
        else s[i] in cs && MatchAt(ts[1..], s, i + 1, ignoreCase)
  }

  /** `pattern.test(s)`: a match starts somewhere in `s`. */
  predicate Occurs(ts: seq<Term>, s: string, ignoreCase: bool) {
    exists i | 0 <= i <= |s| :: MatchAt(ts, s, i, ignoreCase)
  }

  /** A literal followed by more terms matches exactly where the literal is spelled out. */
  lemma {:induction false} TextMatch(w: string, rest: seq<Term>, s: string, i: nat)
    requires i <= |s|
    ensures MatchAt(Text(w) + rest, s, i, false) <==>
      i + |w| <= |s| && s[i..i + |w|] == w && MatchAt(rest, s, i + |w|, false)
    decreases |w|
  {
    if w != [] {
      assert (Text(w) + rest)[0] == One(Char(w[0]));
      assert (Text(w) + rest)[1..] == Text(w[1..]) + rest;
      if i < |s| {
        TextMatch(w[1..], rest, s, i + 1);
        if i + |w| <= |s| {
          assert s[i..i + |w|] == [s[i]] + s[i + 1..i + |w|];
        }
      }
    } else {
      assert Text(w) + rest == rest;
    }
  }

  /** The three parts of an occurrence of `w1 + [c] + w2`, each at its place. */
  lemma ThreeParts(s: string, w1: string, c: char, w2: string, i: nat)
    requires OccursAt(s, w1 + [c] + w2, i)
    ensures i + |w1| < |s| && s[i..i + |w1|] == w1 && s[i + |w1|] == c
    ensures s[i + |w1| + 1..i + |w1| + 1 + |w2|] == w2
  {
    var n := |w1|;
    var m := s[i..i + n + 1 + |w2|];
    assert m == w1 + [c] + w2;
    assert s[i..i + n] == m[..n] == w1;
    assert s[i + n] == m[n] == c;
    assert s[i + n + 1..i + n + 1 + |w2|] == m[n + 1..] == w2;
  }

  /** One character of a class followed by a literal matches where the text spells them out. */
  lemma ClassThenText(cs: set<char>, w: string, s: string, j: nat)
    requires j < |s| && s[j] in cs && j + 1 + |w| <= |s| && s[j + 1..j + 1 + |w|] == w
    ensures MatchAt([One(OneOf(cs))] + Text(w), s, j, false)
  {
    TextMatch(w, [], s, j + 1);
    assert Text(w) + [] == Text(w);
    assert ([One(OneOf(cs))] + Text(w))[1..] == Text(w);
  }

  /** A literal, one character of a class, and a literal match where the text spells them out. */
  lemma LiteralClassLiteral(w1: string, cs: set<char>, w2: string, s: string, i: nat, c: char)
    requires c in cs && OccursAt(s, w1 + [c] + w2, i)
    ensures MatchAt(Text(w1) + [One(OneOf(cs))] + Text(w2), s, i, false)
  {
    ThreeParts(s, w1, c, w2, i);
    ClassThenText(cs, w2, s, i + |w1|);
    TextMatch(w1, [One(OneOf(cs))] + Text(w2), s, i);
    Assoc(Text(w1), [One(OneOf(cs))], Text(w2));
  }

  /** A literal pattern occurs exactly where the text contains it (`includes`). */
  lemma TextOccurs(w: string, s: string)
    ensures Occurs(Text(w), s, false) <==> Contains(s, w)
  {
    assert Text(w) + [] == Text(w);
    if Occurs(Text(w), s, false) {
      var i :| 0 <= i <= |s| && MatchAt(Text(w), s, i, false);
      TextMatch(w, [], s, i);
      assert OccursAt(s, w, i);
    }
    if Contains(s, w) {
      var k :| 0 <= k <= |s| - |w| && OccursAt(s, w, k);
      TextMatch(w, [], s, k);
      assert MatchAt(Text(w), s, k, false);
    }
  }
}
