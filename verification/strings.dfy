/**
 * The pieces of the JavaScript string library that the scripts lean on, written out:
 * the `\s` character class, `split`/`join` on one character, `trim`/`trimStart`/`trimEnd`,
 * `toLowerCase` on ASCII letters, `includes`, and decimal rendering/parsing of naturals
 * (`parseInt(d, 10)` and template-literal interpolation of a number).
 */
module Strings {

  /** A text is what comes before position `i`, the character there, and what follows. */
  lemma SliceAround<T>(s: seq<T>, i: nat)
    requires i < |s|
    ensures s == s[..i] + [s[i]] + s[i + 1..]
  {
  }

  /** Dropping the first element of a non-empty front drops it from the whole. */
  lemma TailAppend<T>(a: seq<T>, b: seq<T>)
    requires a != []
    ensures (a + b)[1..] == a[1..] + b
  {
  }

  /** Dropping past the front drops into the back. */
  lemma DropAppend<T>(a: seq<T>, b: seq<T>, n: nat)
    requires n <= |b|
    ensures (a + b)[|a| + n..] == b[n..]
  {
  }

  /** The second and the last of four concatenated parts, cut back out. */
  lemma PartsOfFour<T>(a: seq<T>, b: seq<T>, c: seq<T>, d: seq<T>)
    ensures (a + b + c + d)[|a|..|a| + |b|] == b
    ensures (a + b + c + d)[|a| + |b| + |c|..] == d
  {
    var t := a + b + c + d;
    assert t == a + b + (c + d);
  }

  /** The parts of `a + [x] + b`, each at its place. */
  lemma AroundSep<T>(a: seq<T>, x: T, b: seq<T>)
    ensures (a + [x] + b)[..|a|] == a && (a + [x] + b)[|a|] == x && (a + [x] + b)[|a| + 1..] == b
    ensures forall k :: 0 <= k < |a| ==> (a + [x] + b)[k] == a[k]
  {
  }

  /** Concatenation regroups freely. */
  lemma Assoc<T>(a: seq<T>, b: seq<T>, c: seq<T>)
    ensures (a + b) + c == a + (b + c)
  {
  }

  lemma DropTwice<T>(s: seq<T>, i: nat, j: nat)
    requires i + j <= |s|
    ensures s[i..][j..] == s[i + j..]
  {
  }

  lemma SliceOfMiddle<T>(a: seq<T>, b: seq<T>, c: seq<T>, j: nat, k: nat)
    requires j <= k <= |b|
    ensures (a + b + c)[|a| + j..|a| + k] == b[j..k]
  {
  }

  /** `xs.map(f)`. */
  function Map<T, U>(f: T -> U, xs: seq<T>): (ys: seq<U>)
    ensures |ys| == |xs| && forall i :: 0 <= i < |xs| ==> ys[i] == f(xs[i])
  {
    seq(|xs|, i requires 0 <= i < |xs| => f(xs[i]))
  }

  lemma MapSnoc<T, U>(f: T -> U, xs: seq<T>, x: T)
    ensures Map(f, xs + [x]) == Map(f, xs) + [f(x)]
  {
    assert forall i :: 0 <= i < |xs| ==> (xs + [x])[i] == xs[i];
  }

  // ---------------------------------------------------------------------------
  // Character classes
  // ---------------------------------------------------------------------------

  /** The ECMAScript `\s` class: WhiteSpace and LineTerminator code points. */
  predicate IsSpace(c: char) {
    c in Whitespace
  }

  const Whitespace: set<char> := {
    ' ', '\t', '\n', '\r', '\U{000B}', '\U{000C}', '\U{00A0}', '\U{1680}',
    '\U{2000}', '\U{2001}', '\U{2002}', '\U{2003}', '\U{2004}', '\U{2005}', '\U{2006}',
    '\U{2007}', '\U{2008}', '\U{2009}', '\U{200A}',
    '\U{2028}', '\U{2029}', '\U{202F}', '\U{205F}', '\U{3000}', '\U{FEFF}'
  }

  /** The characters a regular-expression `.` does not match. */
  predicate IsLineTerminator(c: char) {
    c == '\n' || c == '\r' || c == '\U{2028}' || c == '\U{2029}'
  }

  /** `\d` (ASCII digits only). */
  predicate IsDigit(c: char) {
    '0' <= c <= '9'
  }

  predicate IsAsciiAlnum(c: char) {
    IsDigit(c) || 'a' <= c <= 'z' || 'A' <= c <= 'Z'
  }

  predicate AllSpace(s: string) {
    forall k :: 0 <= k < |s| ==> IsSpace(s[k])
  }

  predicate AllDigits(s: string) {
    forall k :: 0 <= k < |s| ==> IsDigit(s[k])
  }

  predicate NoLineTerminator(s: string) {
    forall k :: 0 <= k < |s| ==> !IsLineTerminator(s[k])
  }

  // ---------------------------------------------------------------------------
  // Maximal runs at the front of a string (what a greedy `\s+`, `\d+` or `[^\s]+` consumes)
  // ---------------------------------------------------------------------------

  function LeadingSpaces(s: string): (n: nat)
    ensures n <= |s| && AllSpace(s[..n])
    ensures n < |s| ==> !IsSpace(s[n])
  {
    if s != [] && IsSpace(s[0]) then
      var n := 1 + LeadingSpaces(s[1..]);
      assert s[..n] == [s[0]] + s[1..][..n - 1];
      n
    else 0
  }

  function LeadingDigits(s: string): (n: nat)
    ensures n <= |s| && AllDigits(s[..n])
    ensures n < |s| ==> !IsDigit(s[n])
  {
    if s != [] && IsDigit(s[0]) then
      var n := 1 + LeadingDigits(s[1..]);
      assert s[..n] == [s[0]] + s[1..][..n - 1];
      n
    else 0
  }

  function LeadingNonSpaces(s: string): (n: nat)
    ensures n <= |s| && forall k :: 0 <= k < n ==> !IsSpace(s[k])
    ensures n < |s| ==> IsSpace(s[n])
  {
    if s != [] && !IsSpace(s[0]) then 1 + LeadingNonSpaces(s[1..]) else 0
  }

  /** A whitespace run ends at the first character that is not whitespace. */
  lemma {:induction false} LeadingSpacesOf(w: string, x: string)
    requires AllSpace(w) && x != [] && !IsSpace(x[0])
    ensures LeadingSpaces(w + x) == |w|
    decreases |w|
  {
    if w == [] {
      assert w + x == x;
    } else {
      assert (w + x)[1..] == w[1..] + x;
      LeadingSpacesOf(w[1..], x);
    }
  }

  /** A text without whitespace is one run of non-space characters. */
  lemma {:induction false} LeadingNonSpacesOf(v: string)
    requires forall k :: 0 <= k < |v| ==> !IsSpace(v[k])
    ensures LeadingNonSpaces(v) == |v|
    decreases |v|
  {
    if v != [] {
      LeadingNonSpacesOf(v[1..]);
    }
  }

  /**
   * The tail `\s+(.+)\s*$` shared by the task-header and checklist patterns: some
   * non-empty run of whitespace, then a non-empty run without line terminators, then
   * only whitespace up to the end of the line.
   */
  predicate SpacedText(t: string) {
    exists a, b | 0 <= a <= b <= |t| :: SpacedTextAt(t, a, b)
  }

  /** `t[..a]` is the `\s+` run, `t[a..b]` the captured `.+` and `t[b..]` the trailing `\s*`. */
  predicate SpacedTextAt(t: string, a: int, b: int) {
    1 <= a < b <= |t| && AllSpace(t[..a]) && NoLineTerminator(t[a..b]) && AllSpace(t[b..])
  }

  // ---------------------------------------------------------------------------
  // Trimming
  // ---------------------------------------------------------------------------

  /** `trimEnd()`. */
  function TrimEnd(s: string): string {
    if s != [] && IsSpace(s[|s| - 1]) then TrimEnd(s[..|s| - 1]) else s
  }

  /** `trimStart()`. */
  function TrimStart(s: string): string {
    s[LeadingSpaces(s)..]
  }

  /** `trim()`. */
  function Trim(s: string): string {
    TrimStart(TrimEnd(s))
  }

  /** `trimEnd` keeps the longest prefix that does not end in whitespace, and cuts off only whitespace. */
  lemma {:induction false} TrimEndCuts(s: string)
    ensures TrimEnd(s) <= s
    ensures AllSpace(s[|TrimEnd(s)|..])
    ensures TrimEnd(s) == [] || !IsSpace(TrimEnd(s)[|TrimEnd(s)| - 1])
    decreases |s|
  {
    if s != [] && IsSpace(s[|s| - 1]) {
      var p := s[..|s| - 1];
      TrimEndCuts(p);
      var r := TrimEnd(p);
      assert s[|r|..] == p[|r|..] + [s[|s| - 1]];
    }
  }

  /** `trimStart` keeps the longest suffix that does not start with whitespace, and cuts off only whitespace. */
  lemma TrimStartCuts(s: string)
    ensures |TrimStart(s)| <= |s| && TrimStart(s) == s[|s| - |TrimStart(s)|..]
    ensures AllSpace(s[..|s| - |TrimStart(s)|])
    ensures TrimStart(s) == [] || !IsSpace(TrimStart(s)[0])
  {
  }

  /** `trim` leaves text that neither starts nor ends with whitespace, with only whitespace around it. */
  lemma TrimCuts(s: string)
    ensures var r := Trim(s); r == [] || (!IsSpace(r[0]) && !IsSpace(r[|r| - 1]))
    ensures exists a :: PaddedAt(s, Trim(s), a)
  {
    var e := TrimEnd(s);
    var r := TrimStart(e);
    TrimEndCuts(s);
    TrimStartCuts(e);
    var a := |e| - |r|;
    assert s[a..a + |r|] == r;
    assert s[..a] == e[..a];
    assert s[a + |r|..] == s[|e|..];
    assert PaddedAt(s, r, a);
  }

  /** Trimming removes characters but adds none. */
  lemma TrimKeepsOut(s: string, x: char)
    requires x !in s
    ensures x !in Trim(s)
  {
    TrimCuts(s);
    var a :| PaddedAt(s, Trim(s), a);
    assert forall k :: 0 <= k < |Trim(s)| ==> Trim(s)[k] == s[a + k];
  }

  /** Text without any whitespace is its own trim. */
  lemma TrimOfNonSpace(s: string)
    requires forall k :: 0 <= k < |s| ==> !IsSpace(s[k])
    ensures Trim(s) == s
  {
    assert TrimEnd(s) == s;
  }

  /** `s` is `r` with only whitespace before (the first `a` characters) and after it. */
  predicate PaddedAt(s: string, r: string, a: int) {
    0 <= a <= |s| - |r| && s[a..a + |r|] == r && AllSpace(s[..a]) && AllSpace(s[a + |r|..])
  }

  /** Whitespace padding on either side never changes what `trimEnd` keeps of the text. */
  lemma {:induction false} TrimEndPadded(x: string, b: string)
    requires AllSpace(b)
    ensures TrimEnd(x + b) == TrimEnd(x)
    decreases |b|
  {
    if b != [] {
      var y := x + b[..|b| - 1];
      assert (x + b)[..|x + b| - 1] == y;
      TrimEndPadded(x, b[..|b| - 1]);
    } else {
      assert x + b == x;
    }
  }

  lemma {:induction false} TrimStartPadded(w: string, x: string)
    requires AllSpace(w)
    ensures TrimStart(w + x) == TrimStart(x)
    decreases |w|
  {
    if w != [] {
      assert (w + x)[1..] == w[1..] + x;
      assert LeadingSpaces(w + x) == 1 + LeadingSpaces(w[1..] + x);
      TrimStartPadded(w[1..], x);
    } else {
      assert w + x == x;
    }
  }

  lemma TrimEndOfSpaces(w: string)
    requires AllSpace(w)
    ensures TrimEnd(w) == []
  {
    TrimEndPadded([], w);
    assert [] + w == w;
  }

  /** A leading block of whitespace disappears from `trimEnd` when nothing else survives. */
  lemma {:induction false} TrimEndPrefixed(w: string, x: string)
    requires AllSpace(w)
    ensures TrimEnd(w + x) == if TrimEnd(x) == [] then [] else w + TrimEnd(x)
    decreases |x|
  {
    if x == [] {
      assert w + x == w;
      TrimEndOfSpaces(w);
    } else if IsSpace(x[|x| - 1]) {
      assert (w + x)[..|w + x| - 1] == w + x[..|x| - 1];
      TrimEndPrefixed(w, x[..|x| - 1]);
    } else {
      assert TrimEnd(x) == x;
    }
  }

  /**
   * Whatever split `w + a + b` a regular expression engine picks between the padding
   * and the captured text, `trim` of the capture equals `trim` of the whole.
   */
  lemma TrimPadding(w: string, a: string, b: string)
    requires AllSpace(w) && AllSpace(b)
    ensures Trim(w + a + b) == Trim(a)
  {
    TrimEndPadded(w + a, b);
    TrimEndPrefixed(w, a);
    if TrimEnd(a) != [] {
      TrimStartPadded(w, TrimEnd(a));
    }
  }

  /** The capture of `\s+(.+)\s*`, trimmed, is the whole text trimmed, wherever the split falls. */
  lemma TrimOfCapture(t: string, a: int, b: int)
    requires SpacedTextAt(t, a, b)
    ensures Trim(t[a..b]) == Trim(t)
  {
    assert t == t[..a] + t[a..b] + t[b..];
    TrimPadding(t[..a], t[a..b], t[b..]);
  }

  // ---------------------------------------------------------------------------
  // ASCII lower-casing and containment
  // ---------------------------------------------------------------------------

  function LowerChar(c: char): (r: char)
    ensures 'A' <= c <= 'Z' ==> 'a' <= r <= 'z'
    ensures !('A' <= c <= 'Z') ==> r == c
  {
    if 'A' <= c <= 'Z' then (c as int + 32) as char else c
  }

  /** `toLowerCase()` restricted to ASCII letters. */
  function Lower(s: string): (r: string)
    ensures |r| == |s| && forall k :: 0 <= k < |s| ==> r[k] == LowerChar(s[k])
  {
    seq(|s|, k requires 0 <= k < |s| => LowerChar(s[k]))
  }

  lemma LowerAppend(a: string, b: string)
    ensures Lower(a + b) == Lower(a) + Lower(b)
  {
  }

  /** ASCII case-insensitive equality, as a `/i` pattern compares literal ASCII text. */
  predicate EqualsIgnoreCase(s: string, t: string) {
    Lower(s) == Lower(t)
  }

  /** `hay.includes(needle)`. */
  predicate Contains(hay: string, needle: string) {
    exists k | 0 <= k <= |hay| - |needle| :: OccursAt(hay, needle, k)
  }

  /** `needle` starts at index `k` of `hay`. */
  predicate OccursAt(hay: string, needle: string, k: int) {
    0 <= k <= |hay| - |needle| && hay[k..k + |needle|] == needle
  }

  lemma ContainsLower(hay: string, needle: string)
    requires Contains(hay, needle)
    ensures Contains(Lower(hay), Lower(needle))
  {
    var k :| 0 <= k <= |hay| - |needle| && OccursAt(hay, needle, k);
    assert Lower(hay)[k..k + |needle|] == Lower(needle);
    assert OccursAt(Lower(hay), Lower(needle), k);
  }

  /** Whatever contains `p + x` contains `x`. */
  lemma ContainsSuffixOf(hay: string, p: string, x: string)
    requires Contains(hay, p + x)
    ensures Contains(hay, x)
  {
    var k :| 0 <= k <= |hay| - |p + x| && OccursAt(hay, p + x, k);
    assert hay[k + |p|..k + |p| + |x|] == hay[k..k + |p + x|][|p|..];
    assert (p + x)[|p|..] == x;
    assert OccursAt(hay, x, k + |p|);
  }

  predicate StartsWith(s: string, prefix: string) {
    prefix <= s
  }

  predicate EndsWith(s: string, suffix: string) {
    |suffix| <= |s| && s[|s| - |suffix|..] == suffix
  }

  lemma StartsWithAppend(a: string, b: string)
    ensures StartsWith(a + b, a) && OccursAt(a + b, a, 0)
  {
    assert (a + b)[..|a|] == a;
  }

  /** An occurrence stays one, further on, when text is put in front. */
  lemma OccursAfter(a: string, s: string, w: string, i: int)
    requires OccursAt(s, w, i)
    ensures OccursAt(a + s, w, |a| + i)
  {
    assert (a + s)[|a| + i..|a| + i + |w|] == s[i..i + |w|];
  }

  lemma OccursInMiddle(a: string, b: string, c: string)
    ensures OccursAt(a + b + c, b, |a|)
  {
    assert (a + b + c)[|a|..|a| + |b|] == b;
  }

  /** An occurrence inside a prefix is one in the whole text. */
  lemma OccursInPrefix(s: string, p: string, w: string, i: int)
    requires StartsWith(s, p) && OccursAt(p, w, i)
    ensures OccursAt(s, w, i)
  {
    assert s[i..i + |w|] == p[i..i + |w|];
  }

  /** A suffix stays one when text is put in front. */
  lemma EndsWithAppend(a: string, s: string, w: string)
    requires EndsWith(s, w)
    ensures EndsWith(a + s, w)
  {
    assert (a + s)[|a + s| - |w|..] == s[|s| - |w|..];
  }

  /** Where each part of a six-part text begins, and how it ends. */
  lemma SixParts(a: string, b: string, c: string, d: string, e: string, f: string)
    ensures StartsWith(a + (b + (c + (d + (e + f)))), a)
    ensures OccursAt(a + (b + (c + (d + (e + f)))), b, |a|)
    ensures OccursAt(a + (b + (c + (d + (e + f)))), d, |a| + |b| + |c|)
    ensures EndsWith(a + (b + (c + (d + (e + f)))), f)
  {
    StartsWithAppend(a, b + (c + (d + (e + f))));
    StartsWithAppend(b, c + (d + (e + f)));
    OccursAfter(a, b + (c + (d + (e + f))), b, 0);
    StartsWithAppend(d, e + f);
    OccursAfter(c, d + (e + f), d, 0);
    OccursAfter(b, c + (d + (e + f)), d, |c|);
    OccursAfter(a, b + (c + (d + (e + f))), d, |b| + |c|);
    assert EndsWith(e + f, f) by {
      assert (e + f)[|e|..] == f;
    }
    EndsWithAppend(d, e + f, f);
    EndsWithAppend(c, d + (e + f), f);
    EndsWithAppend(b, c + (d + (e + f)), f);
    EndsWithAppend(a, b + (c + (d + (e + f))), f);
  }

  // ---------------------------------------------------------------------------
  // `split` and `join` on a single-character separator
  // ---------------------------------------------------------------------------

  function FirstIndexOf(s: string, c: char): (i: nat)
    requires c in s
    ensures i < |s| && s[i] == c && c !in s[..i]
  {
    if s[0] == c then 0
    else
      var i := 1 + FirstIndexOf(s[1..], c);
      assert s[..i] == [s[0]] + s[1..][..i - 1];
      i
  }

  /** The first occurrence is at `i` when `s[i]` is `c` and no earlier character is. */
  lemma FirstIndexAt(s: string, i: nat, c: char)
    requires i < |s| && s[i] == c && forall k :: 0 <= k < i ==> s[k] != c
    ensures FirstIndexOf(s, c) == i
  {
    var j := FirstIndexOf(s, c);
    assert forall k :: 0 <= k < j ==> s[..j][k] == s[k];
  }

  /** `parts.join(sep)`. */
  function Join(parts: seq<string>, sep: char): string {
    if |parts| == 0 then ""
    else if |parts| == 1 then parts[0]
    else parts[0] + [sep] + Join(parts[1..], sep)
  }

  /** `s.split(sep)`: never empty, no part holds the separator, and joining gives `s` back. */
  function Split(s: string, sep: char): (parts: seq<string>)
    ensures |parts| >= 1
    ensures forall k :: 0 <= k < |parts| ==> sep !in parts[k]
    ensures Join(parts, sep) == s
    decreases |s|
  {
    if sep !in s then [s]
    else
      var i := FirstIndexOf(s, sep);
      var rest := Split(s[i + 1..], sep);
      var parts := [s[..i]] + rest;
      assert parts[1..] == rest;
      assert s == s[..i] + [sep] + s[i + 1..];
      parts
  }

  /** Split at the first separator: the text before it, then the split of the rest. */
  lemma SplitAtFirst(s: string, sep: char, i: nat)
    requires i < |s| && s[i] == sep && forall k :: 0 <= k < i ==> s[k] != sep
    ensures Split(s, sep) == [s[..i]] + Split(s[i + 1..], sep)
  {
    FirstIndexAt(s, i, sep);
  }

  /** Splitting undoes joining parts that do not contain the separator. */
  lemma {:induction false} SplitJoin(parts: seq<string>, sep: char)
    requires |parts| >= 1
    requires forall k :: 0 <= k < |parts| ==> sep !in parts[k]
    ensures Split(Join(parts, sep), sep) == parts
    decreases |parts|
  {
    if |parts| > 1 {
      var p, rest := parts[0], Join(parts[1..], sep);
      var s := Join(parts, sep);
      assert s == p + [sep] + rest;
      AroundSep(p, sep, rest);
      SplitAtFirst(s, sep, |p|);
      SplitJoin(parts[1..], sep);
      assert parts == [p] + parts[1..];
    }
  }

  lemma JoinAppend(a: seq<string>, b: seq<string>, sep: char)
    requires |a| >= 1 && |b| >= 1
    ensures Join(a + b, sep) == Join(a, sep) + [sep] + Join(b, sep)
    decreases |a|
  {
    if |a| == 1 {
      assert (a + b)[1..] == b;
      assert Join(a + b, sep) == a[0] + [sep] + Join(b, sep);
    } else {
      assert (a + b)[1..] == a[1..] + b;
      JoinAppend(a[1..], b, sep);
      assert Join(a + b, sep) == a[0] + [sep] + Join(a[1..] + b, sep);
      assert Join(a, sep) == a[0] + [sep] + Join(a[1..], sep);
    }
  }

  /** Splitting at a separator placed between two texts splits each of them on its own. */
  lemma SplitAppend(a: string, b: string, sep: char)
    ensures Split(a + [sep] + b, sep) == Split(a, sep) + Split(b, sep)
  {
    var parts := Split(a, sep) + Split(b, sep);
    JoinAppend(Split(a, sep), Split(b, sep), sep);
    SplitJoin(parts, sep);
  }

  /** A leading separator splits off an empty first part. */
  lemma SplitAfterSep(b: string, sep: char)
    ensures Split([sep] + b, sep) == [""] + Split(b, sep)
  {
    SplitAppend([], b, sep);
    assert [] + [sep] + b == [sep] + b;
  }

  /** A trailing separator splits off an empty last part. */
  lemma SplitBeforeSep(a: string, sep: char)
    ensures Split(a + [sep], sep) == Split(a, sep) + [""]
  {
    SplitAppend(a, [], sep);
    assert a + [sep] + [] == a + [sep];
  }

  /** The last index of `c` in `s`. */
  function LastIndexOf(s: string, c: char): (i: nat)
    requires c in s
    ensures i < |s| && s[i] == c && c !in s[i + 1..]
  {
    if s[|s| - 1] == c then |s| - 1
    else
      var i := LastIndexOf(s[..|s| - 1], c);
      assert s[i + 1..] == s[..|s| - 1][i + 1..] + [s[|s| - 1]];
      i
  }

  // ---------------------------------------------------------------------------
  // Decimal naturals: `parseInt(digits, 10)` and `${n}`
  // ---------------------------------------------------------------------------

  function DigitValue(c: char): nat
    requires IsDigit(c)
  {
    (c as int) - ('0' as int)
  }

  function DigitChar(d: nat): (c: char)
    requires d < 10
    ensures IsDigit(c) && DigitValue(c) == d
  {
    ('0' as int + d) as char
  }

  /** The value of a run of decimal digits, leading zeros included. */
  function DecimalValue(d: string): nat
    requires AllDigits(d)
  {
    if d == [] then 0 else DecimalValue(d[..|d| - 1]) * 10 + DigitValue(d[|d| - 1])
  }

  /** The decimal rendering of a natural number, without leading zeros. */
  function Show(n: nat): (r: string)
    ensures |r| >= 1 && AllDigits(r)
    ensures r[0] == '0' ==> r == "0"
  {
    if n < 10 then [DigitChar(n)] else Show(n / 10) + [DigitChar(n % 10)]
  }

  /** Reading back a rendered number gives the number. */
  lemma {:induction false} ValueOfShow(n: nat)
    ensures DecimalValue(Show(n)) == n
  {
    if n >= 10 {
      var r := Show(n);
      assert r[..|r| - 1] == Show(n / 10);
      ValueOfShow(n / 10);
    }
  }

  /** A digit string without a leading zero is exactly the rendering of its value. */
  lemma {:induction false} ShowOfValue(d: string)
    requires |d| >= 1 && AllDigits(d)
    requires d[0] != '0' || d == "0"
    ensures Show(DecimalValue(d)) == d
    decreases |d|
  {
    if |d| > 1 {
      var p := d[..|d| - 1];
      PositiveValue(p);
      ShowOfValue(p);
      var n := DecimalValue(d);
      assert n / 10 == DecimalValue(p);
      assert n % 10 == DigitValue(d[|d| - 1]);
      assert d == p + [d[|d| - 1]];
    }
  }

  lemma {:induction false} PositiveValue(d: string)
    requires |d| >= 1 && AllDigits(d) && d[0] != '0'
    ensures DecimalValue(d) >= 1
    decreases |d|
  {
    if |d| > 1 {
      PositiveValue(d[..|d| - 1]);
    }
  }

  /** Leading zeros do not change the parsed value. */
  lemma {:induction false} LeadingZeroIgnored(d: string)
    requires AllDigits(d)
    ensures AllDigits("0" + d) && DecimalValue("0" + d) == DecimalValue(d)
    decreases |d|
  {
    if d != [] {
      assert ("0" + d)[..|"0" + d| - 1] == "0" + d[..|d| - 1];
      LeadingZeroIgnored(d[..|d| - 1]);
    }
  }
}
