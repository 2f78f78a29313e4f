/**
 * String helpers with the semantics of the Python `str` methods and SQLite
 * string functions that the clipboard core relies on: `strip`, `split`,
 * `join`, `in`, `startswith`, `replace` / SQL `REPLACE`, `int(...)` and
 * `str(...)` on integers, and code-point order (`sorted`, SQL `<` on TEXT).
 */
module Text {
  import opened Wrappers

  // ---------------------------------------------------------------------
  // Whitespace and stripping
  // ---------------------------------------------------------------------

  /** The characters for which Python's `str.isspace()` holds; `\s` in a `str` regex matches the same set. */
  predicate IsSpace(c: char) {
    c == ' ' || ('\t' <= c <= '\r') || ('\U{1c}' <= c <= '\U{1f}')
    || c == '\U{85}' || c == '\U{a0}' || c == '\U{1680}'
    || ('\U{2000}' <= c <= '\U{200a}') || c == '\U{2028}' || c == '\U{2029}'
    || c == '\U{202f}' || c == '\U{205f}' || c == '\U{3000}'
  }

  /** `s` has no whitespace at either end. */
  predicate IsStripped(s: string) {
    s == [] || (!IsSpace(s[0]) && !IsSpace(s[|s| - 1]))
  }

  /** The number of whitespace characters `s` starts with. */
  function LeadingSpaces(s: string): (n: nat)
    ensures n <= |s|
  {
    if |s| > 0 && IsSpace(s[0]) then 1 + LeadingSpaces(s[1..]) else 0
  }

  /** The number of whitespace characters `s` ends with. */
  function TrailingSpaces(s: string): (n: nat)
    ensures n <= |s|
  {
    if |s| > 0 && IsSpace(s[|s| - 1]) then 1 + TrailingSpaces(s[..|s| - 1]) else 0
  }

  /** The leading whitespace is whitespace, and what follows it is not. */
  lemma {:induction false} LeadingSpacesExact(s: string)
    ensures forall k :: 0 <= k < LeadingSpaces(s) ==> IsSpace(s[k])
    ensures LeadingSpaces(s) == |s| || !IsSpace(s[LeadingSpaces(s)])
  {
    if |s| > 0 && IsSpace(s[0]) {
      LeadingSpacesExact(s[1..]);
      forall k | 1 <= k < LeadingSpaces(s) ensures IsSpace(s[k]) {
        assert s[k] == s[1..][k - 1];
      }
    }
  }

  /** The trailing whitespace is whitespace, and what precedes it is not. */
  lemma {:induction false} TrailingSpacesExact(s: string)
    ensures forall k :: |s| - TrailingSpaces(s) <= k < |s| ==> IsSpace(s[k])
    ensures TrailingSpaces(s) == |s| || !IsSpace(s[|s| - 1 - TrailingSpaces(s)])
  {
    if |s| > 0 && IsSpace(s[|s| - 1]) {
      var init := s[..|s| - 1];
      TrailingSpacesExact(init);
      forall k | |s| - TrailingSpaces(s) <= k < |s| - 1 ensures IsSpace(s[k]) {
        assert s[k] == init[k];
      }
    }
  }

  /** `s.lstrip()`: the suffix of `s` left after dropping leading whitespace. */
  function LStrip(s: string): string {
    s[LeadingSpaces(s)..]
  }

  /** `s.rstrip()`: the prefix of `s` left after dropping trailing whitespace. */
  function RStrip(s: string): string {
    s[..|s| - TrailingSpaces(s)]
  }

  /** `s.strip()`. */
  function Strip(s: string): string {
    RStrip(LStrip(s))
  }

  /** `Strip` removes only whitespace, from the two ends, and leaves a stripped infix of `s`. */
  lemma {:induction false} StripIsStrippedInfix(s: string)
    ensures var r, i := Strip(s), |s| - |LStrip(s)|;
      && IsStripped(r)
      && i + |r| <= |s| && s[i..i + |r|] == r
      && (forall k :: 0 <= k < i ==> IsSpace(s[k]))
      && (forall k :: i + |r| <= k < |s| ==> IsSpace(s[k]))
  {
    var i := LeadingSpaces(s);
    var l := s[i..];
    var t := TrailingSpaces(l);
    LeadingSpacesExact(s);
    TrailingSpacesExact(l);
    var r := l[..|l| - t];
    assert LStrip(s) == l && Strip(s) == r;
    assert r == s[i..|s| - t];
    forall k | |s| - t <= k < |s|
      ensures IsSpace(s[k])
    {
      assert s[k] == l[k - i];
    }
    if r != [] {
      assert r[0] == l[0];
    }
  }

  /** A stripped string is its own strip. */
  lemma {:induction false} StripOfStripped(s: string)
    requires IsStripped(s)
    ensures Strip(s) == s
  {
    assert LeadingSpaces(s) == 0 && LStrip(s) == s;
    assert TrailingSpaces(s) == 0;
  }

  /** Stripping a stripped string behind any amount of leading whitespace gives it back. */
  lemma {:induction false} StripAfterSpaces(w: string, s: string)
    requires forall k :: 0 <= k < |w| ==> IsSpace(w[k])
    requires IsStripped(s)
    ensures Strip(w + s) == s
  {
    assert (w + s)[..|w|] == w && (w + s)[|w|..] == s;
    LeadingSpacesExact(w + s);
    assert LeadingSpaces(w + s) == |w|;
    assert LStrip(w + s) == s;
    StripOfStripped(s);
  }

  /** Stripping removes characters and adds none, so it keeps a character out. */
  lemma {:induction false} StripKeepsOut(s: string, c: char)
    requires c !in s
    ensures c !in Strip(s)
  {
    StripIsStrippedInfix(s);
    var r, i := Strip(s), |s| - |LStrip(s)|;
    forall k | 0 <= k < |r| ensures r[k] != c {
      assert r[k] == s[i + k];
    }
  }

  /** `s.strip(c)`: drop every leading and trailing occurrence of `c`. */
  function StripChar(s: string, c: char): (r: string)
    ensures |r| <= |s|
    ensures r == [] || (r[0] != c && r[|r| - 1] != c)
    ensures c !in s ==> r == s
  {
    if |s| > 0 && s[0] == c then StripChar(s[1..], c)
    else if |s| > 0 && s[|s| - 1] == c then StripChar(s[..|s| - 1], c)
    else s
  }

  /** Stripping a character from a string made only of it leaves nothing. */
  lemma {:induction false} StripCharAll(s: string, c: char)
    requires forall k :: 0 <= k < |s| ==> s[k] == c
    ensures StripChar(s, c) == []
  {
    if s != [] {
      StripCharAll(s[1..], c);
    }
  }

  // ---------------------------------------------------------------------
  // Prefixes, substrings, replacement
  // ---------------------------------------------------------------------

  /** `s.startswith(p)`. */
  predicate StartsWith(s: string, p: string) {
    |p| <= |s| && s[..|p|] == p
  }

  /** `sub` occurs in `s` at index `i`. */
  predicate OccursAt(s: string, sub: string, i: int) {
    0 <= i && i + |sub| <= |s| && s[i..i + |sub|] == sub
  }

  /** `sub in s` (and SQL `instr(s, sub) > 0`, `s LIKE '%sub%'` without wildcards). */
  predicate Contains(s: string, sub: string) {
    StartsWith(s, sub) || (|s| > 0 && Contains(s[1..], sub))
  }

  /** `Contains` holds exactly when `sub` occurs at some index of `s`. */
  lemma {:induction false} ContainsIff(s: string, sub: string)
    ensures Contains(s, sub) <==> exists i :: OccursAt(s, sub, i)
  {
    if StartsWith(s, sub) {
      assert OccursAt(s, sub, 0);
    } else if |s| == 0 {
    } else {
      ContainsIff(s[1..], sub);
      if exists i :: OccursAt(s, sub, i) {
        var i :| OccursAt(s, sub, i);
        assert i != 0;
        assert s[1..][i - 1..i - 1 + |sub|] == s[i..i + |sub|];
        assert OccursAt(s[1..], sub, i - 1);
      }
      if exists j :: OccursAt(s[1..], sub, j) {
        var j :| OccursAt(s[1..], sub, j);
        assert s[1..][j..j + |sub|] == s[j + 1..j + 1 + |sub|];
        assert OccursAt(s, sub, j + 1);
      }
    }
  }

  /** Occurrence at a known index implies containment. */
  lemma {:induction false} ContainsAt(s: string, sub: string, i: int)
    requires OccursAt(s, sub, i)
    ensures Contains(s, sub)
  {
    ContainsIff(s, sub);
  }

  /** `s.replace(target, replacement)` and SQL `REPLACE`: left-to-right, non-overlapping. */
  function Replace(s: string, target: string, replacement: string): (r: string)
    requires target != []
    ensures !Contains(s, target) ==> r == s
    decreases |s|
  {
    if s == [] then []
    else if StartsWith(s, target) then replacement + Replace(s[|target|..], target, replacement)
    else [s[0]] + Replace(s[1..], target, replacement)
  }

  /** Replacing one character by another maps the string character by character. */
  lemma {:induction false} ReplaceCharBySame(s: string, a: char, b: char)
    ensures Replace(s, [a], [b]) == seq(|s|, k requires 0 <= k < |s| => if s[k] == a then b else s[k])
  {
    if s != [] {
      ReplaceCharBySame(s[1..], a, b);
    }
  }

  /** `s.count(target)`: the occurrences found scanning left to right without overlap, as `Replace` replaces them. */
  function CountOccurrences(s: string, target: string): nat
    requires target != []
    decreases |s|
  {
    if s == [] then 0
    else if StartsWith(s, target) then 1 + CountOccurrences(s[|target|..], target)
    else CountOccurrences(s[1..], target)
  }

  /** Each replaced occurrence changes the length by the difference of the two lengths. */
  lemma {:induction false} ReplaceLength(s: string, target: string, replacement: string)
    requires target != []
    ensures |Replace(s, target, replacement)| == |s| + CountOccurrences(s, target) * (|replacement| - |target|)
    decreases |s|
  {
    if s != [] {
      var d := |replacement| - |target|;
      if StartsWith(s, target) {
        ReplaceLength(s[|target|..], target, replacement);
        var c := CountOccurrences(s[|target|..], target);
        assert (1 + c) * d == d + c * d;
      } else {
        ReplaceLength(s[1..], target, replacement);
      }
    }
  }

  /** Replacing a text by itself changes nothing. */
  lemma {:induction false} ReplaceSelf(s: string, target: string)
    requires target != []
    ensures Replace(s, target, target) == s
    decreases |s|
  {
    if s != [] {
      if StartsWith(s, target) {
        ReplaceSelf(s[|target|..], target);
        assert s == s[..|target|] + s[|target|..];
      } else {
        ReplaceSelf(s[1..], target);
        assert s == [s[0]] + s[1..];
      }
    }
  }

  /** A character replaced by text that does not hold it no longer occurs. */
  lemma {:induction false} ReplaceRemovesChar(s: string, a: char, replacement: string)
    requires a !in replacement
    ensures a !in Replace(s, [a], replacement)
    decreases |s|
  {
    if s != [] {
      ReplaceRemovesChar(s[1..], a, replacement);
    }
  }

  // ---------------------------------------------------------------------
  // Splitting and joining
  // ---------------------------------------------------------------------

  /** `s.split(c)`: the pieces between occurrences of `c`; always at least one piece. */
  function SplitOn(s: string, c: char): (r: seq<string>)
    ensures |r| >= 1
    ensures forall i :: 0 <= i < |r| ==> c !in r[i]
  {
    if s == [] then [[]]
    else
      var rest := SplitOn(s[1..], c);
      if s[0] == c then [[]] + rest else [[s[0]] + rest[0]] + rest[1..]
  }

  /** `sep.join(xs)`. */
  function Join(xs: seq<string>, sep: string): string {
    if |xs| == 0 then []
    else if |xs| == 1 then xs[0]
    else xs[0] + sep + Join(xs[1..], sep)
  }

  /** Splitting a string that holds no separator gives the string itself. */
  lemma {:induction false} SplitOnNoSeparator(s: string, c: char)
    requires c !in s
    ensures SplitOn(s, c) == [s]
  {
    if s != [] {
      SplitOnNoSeparator(s[1..], c);
      assert [s[0]] + s[1..] == s;
    }
  }

  /** A separator-free prefix joins the first piece of what follows. */
  lemma {:induction false} SplitOnPrefix(p: string, y: string, c: char)
    requires c !in p
    ensures SplitOn(p + y, c) == [p + SplitOn(y, c)[0]] + SplitOn(y, c)[1..]
  {
    var ys := SplitOn(y, c);
    if p == [] {
      assert p + y == y && p + ys[0] == ys[0];
      assert [ys[0]] + ys[1..] == ys;
    } else {
      assert (p + y)[1..] == p[1..] + y;
      assert (p + y)[0] == p[0] != c;
      SplitOnPrefix(p[1..], y, c);
      var rest := SplitOn(p[1..] + y, c);
      assert rest[0] == p[1..] + ys[0] && rest[1..] == ys[1..];
      assert [p[0]] + (p[1..] + ys[0]) == p + ys[0];
    }
  }

  /** Splitting at a separator that follows a separator-free prefix. */
  lemma {:induction false} SplitOnAtSeparator(p: string, y: string, c: char)
    requires c !in p
    ensures SplitOn(p + [c] + y, c) == [p] + SplitOn(y, c)
  {
    assert p + [c] + y == p + ([c] + y);
    SplitOnPrefix(p, [c] + y, c);
    assert ([c] + y)[1..] == y;
    assert SplitOn([c] + y, c) == [[]] + SplitOn(y, c);
    assert p + [] == p;
  }

  /** Each piece after the first keeps the separator's tail `rest` in front. */
  function Prefixed(xs: seq<string>, rest: string): (r: seq<string>)
    requires |xs| >= 1
    ensures |r| == |xs| && r[0] == xs[0]
    ensures forall i :: 1 <= i < |xs| ==> r[i] == rest + xs[i]
  {
    [xs[0]] + seq(|xs| - 1, i requires 0 <= i < |xs| - 1 => rest + xs[i + 1])
  }

  /**
   * Round trip: joining separator-free pieces with a separator that starts with `c`
   * (", " for tag lists, "\n" for snapshot files) and splitting on `c` gives the
   * pieces back, each later one behind the separator's tail.
   */
  lemma {:induction false} SplitOnJoin(xs: seq<string>, c: char, rest: string)
    requires |xs| >= 1
    requires forall i :: 0 <= i < |xs| ==> c !in xs[i]
    requires c !in rest
    ensures SplitOn(Join(xs, [c] + rest), c) == Prefixed(xs, rest)
  {
    if |xs| == 1 {
      SplitOnNoSeparator(xs[0], c);
    } else {
      var tail := Join(xs[1..], [c] + rest);
      assert Join(xs, [c] + rest) == xs[0] + [c] + (rest + tail);
      SplitOnAtSeparator(xs[0], rest + tail, c);
      SplitOnJoin(xs[1..], c, rest);
      SplitOnPrefix(rest, tail, c);
      var got := SplitOn(Join(xs, [c] + rest), c);
      var want := Prefixed(xs, rest);
      assert |got| == |want|;
      forall i | 0 <= i < |got| ensures got[i] == want[i] {
        if i >= 2 {
          assert got[i] == SplitOn(tail, c)[i - 1] == Prefixed(xs[1..], rest)[i - 1];
        }
      }
    }
  }

  /** A join of non-empty pieces starts with the first piece's first character and ends with the last piece's last. */
  lemma {:induction false} JoinNonEmptyEnds(xs: seq<string>, sep: string)
    requires |xs| >= 1 && forall i :: 0 <= i < |xs| ==> xs[i] != []
    ensures var j := Join(xs, sep); |j| > 0 && j[0] == xs[0][0] && j[|j| - 1] == xs[|xs| - 1][|xs[|xs| - 1]| - 1]
  {
    if |xs| > 1 {
      var tail := Join(xs[1..], sep);
      JoinNonEmptyEnds(xs[1..], sep);
      assert Join(xs, sep) == xs[0] + sep + tail;
      assert xs[1..][|xs| - 2] == xs[|xs| - 1];
    } else {
      assert Join(xs, sep) == xs[0];
    }
  }

  /** Joining the pieces of a split with the separator rebuilds the string. */
  lemma {:induction false} JoinSplitOn(s: string, c: char)
    ensures Join(SplitOn(s, c), [c]) == s
  {
    if s != [] {
      JoinSplitOn(s[1..], c);
      var rest := SplitOn(s[1..], c);
      if s[0] == c {
        assert SplitOn(s, c) == [[]] + rest;
        assert Join([[]] + rest, [c]) == [] + [c] + Join(rest, [c]);
      } else if |rest| == 1 {
        assert SplitOn(s, c) == [[s[0]] + rest[0]];
      } else {
        var first := [s[0]] + rest[0];
        assert SplitOn(s, c) == [first] + rest[1..];
        assert ([first] + rest[1..])[1..] == rest[1..];
        assert Join(rest, [c]) == rest[0] + [c] + Join(rest[1..], [c]);
      }
      assert [s[0]] + s[1..] == s;
    }
  }

  /**
   * In a string that opens with a comma-free token `t` framed by commas, an occurrence of
   * `,q,` (with `q` comma-free) is either the token itself or lies wholly in what follows.
   */
  lemma {:induction false} FramedTokenOccurrence(t: string, v: string, q: string, i: int)
    requires ',' !in t && ',' !in q && |v| >= 1 && v[0] == ','
    requires OccursAt("," + t + v, "," + q + ",", i)
    ensures (i == 0 && q == t) || (i >= |t| + 1 && OccursAt(v, "," + q + ",", i - |t| - 1))
  {
    var w := "," + t + v;
    var p := "," + q + ",";
    forall k | 1 <= k <= |t| ensures w[k] != ',' {
      assert w[k] == t[k - 1];
    }
    assert w[i] == p[0];
    if i == 0 {
      assert w[|q| + 1] == p[|q| + 1];
      assert q == p[1..|q| + 1] == w[1..|q| + 1];
      assert |q| >= |t|;
      assert w[|t| + 1] == v[0] == ',';
      assert |q| <= |t|;
      assert q == t;
    } else {
      var j := i - |t| - 1;
      assert w[i..i + |p|] == v[j..j + |p|];
    }
  }

  /** The comma-joined string framed by commas: its first token, framed, then the rest. */
  function FramedRest(toks: seq<string>): (v: string)
    requires |toks| >= 1
    ensures |v| >= 1 && v[0] == ','
    ensures "," + Join(toks, ",") + "," == "," + toks[0] + v
  {
    if |toks| == 1 then "," else "," + Join(toks[1..], ",") + ","
  }

  /** A token of the list occurs, framed by commas, in the framed join. */
  lemma {:induction false} FramedTokenMatchIf(toks: seq<string>, q: string)
    requires |toks| >= 1 && q in toks
    ensures Contains("," + Join(toks, ",") + ",", "," + q + ",")
  {
    var t, v := toks[0], FramedRest(toks);
    var p := "," + q + ",";
    var w := "," + t + v;
    if q == t {
      assert w[0..|p|] == p;
      ContainsAt(w, p, 0);
    } else {
      FramedTokenMatchIf(toks[1..], q);
      ContainsIff(v, p);
      var j :| OccursAt(v, p, j);
      assert w[j + |t| + 1..j + |t| + 1 + |p|] == v[j..j + |p|];
      ContainsAt(w, p, j + |t| + 1);
    }
  }

  /** A comma-free string that occurs framed by commas in the framed join is one of the tokens. */
  lemma {:induction false} FramedTokenMatchOnlyIf(toks: seq<string>, q: string)
    requires |toks| >= 1
    requires forall k :: 0 <= k < |toks| ==> ',' !in toks[k]
    requires ',' !in q
    requires Contains("," + Join(toks, ",") + ",", "," + q + ",")
    ensures q in toks
  {
    var t, v := toks[0], FramedRest(toks);
    var p := "," + q + ",";
    var w := "," + t + v;
    ContainsIff(w, p);
    var i :| OccursAt(w, p, i);
    FramedTokenOccurrence(t, v, q, i);
    if i != 0 && |toks| > 1 {
      ContainsAt(v, p, i - |t| - 1);
      FramedTokenMatchOnlyIf(toks[1..], q);
    }
  }

  /** `,q,` occurs in `,` + the comma-joined tokens + `,` exactly when `q` is one of the tokens. */
  lemma {:induction false} FramedTokenMatch(toks: seq<string>, q: string)
    requires |toks| >= 1
    requires forall k :: 0 <= k < |toks| ==> ',' !in toks[k]
    requires ',' !in q
    ensures Contains("," + Join(toks, ",") + ",", "," + q + ",") <==> q in toks
  {
    if q in toks {
      FramedTokenMatchIf(toks, q);
    }
    if Contains("," + Join(toks, ",") + ",", "," + q + ",") {
      FramedTokenMatchOnlyIf(toks, q);
    }
  }

  // ---------------------------------------------------------------------
  // Case mapping (ASCII letters only)
  // ---------------------------------------------------------------------

  function LowerChar(c: char): char {
    if 'A' <= c <= 'Z' then (c as int + 32) as char else c
  }

  function UpperChar(c: char): char {
    if 'a' <= c <= 'z' then (c as int - 32) as char else c
  }

  /**
   * `s.lower()` on ASCII letters: the same length, no capital left, each capital
   * replaced by its small letter and every other character kept.
   */
  function Lower(s: string): (r: string)
    ensures |r| == |s|
    ensures forall i :: 0 <= i < |s| ==> !('A' <= r[i] <= 'Z')
    ensures forall i :: 0 <= i < |s| && 'A' <= s[i] <= 'Z' ==> r[i] as int == s[i] as int + 32
    ensures forall i :: 0 <= i < |s| && !('A' <= s[i] <= 'Z') ==> r[i] == s[i]
  {
    seq(|s|, i requires 0 <= i < |s| => LowerChar(s[i]))
  }

  /**
   * `s.upper()` on ASCII letters: the same length, no small letter left, each small
   * letter replaced by its capital and every other character kept.
   */
  function Upper(s: string): (r: string)
    ensures |r| == |s|
    ensures forall i :: 0 <= i < |s| ==> !('a' <= r[i] <= 'z')
    ensures forall i :: 0 <= i < |s| && 'a' <= s[i] <= 'z' ==> r[i] as int == s[i] as int - 32
    ensures forall i :: 0 <= i < |s| && !('a' <= s[i] <= 'z') ==> r[i] == s[i]
  {
    seq(|s|, i requires 0 <= i < |s| => UpperChar(s[i]))
  }

  /** Lower-casing is idempotent and leaves no ASCII capital. */
  lemma {:induction false} LowerIdempotent(s: string)
    ensures Lower(Lower(s)) == Lower(s)
    ensures forall i :: 0 <= i < |s| ==> !('A' <= Lower(s)[i] <= 'Z')
  {
  }

  /** Lower-casing forgets an upper-casing done before it: letters compare the same either way. */
  lemma {:induction false} LowerOfUpper(s: string)
    ensures Lower(Upper(s)) == Lower(s)
  {
    var u := Upper(s);
    forall i | 0 <= i < |s|
      ensures Lower(u)[i] == Lower(s)[i]
    {
      assert u[i] == UpperChar(s[i]);
    }
  }

  // ---------------------------------------------------------------------
  // Code-point order on strings
  // ---------------------------------------------------------------------

  /** `a < b` on Python `str` and on SQLite TEXT with the binary collation. */
  predicate LexLess(a: string, b: string) {
    if a == [] then b != []
    else if b == [] then false
    else if a[0] != b[0] then a[0] < b[0]
    else LexLess(a[1..], b[1..])
  }

  lemma {:induction false} LexLessIrreflexive(a: string)
    ensures !LexLess(a, a)
  {
    if a != [] {
      LexLessIrreflexive(a[1..]);
    }
  }

  lemma {:induction false} LexLessTransitive(a: string, b: string, c: string)
    requires LexLess(a, b) && LexLess(b, c)
    ensures LexLess(a, c)
  {
    if a != [] && b != [] && c != [] && a[0] == b[0] == c[0] {
      LexLessTransitive(a[1..], b[1..], c[1..]);
    }
  }

  lemma {:induction false} LexLessTotal(a: string, b: string)
    ensures a == b || LexLess(a, b) || LexLess(b, a)
  {
    if a != [] && b != [] && a[0] == b[0] {
      LexLessTotal(a[1..], b[1..]);
      if a[1..] == b[1..] {
        assert a == [a[0]] + a[1..] && b == [b[0]] + b[1..];
      }
    }
  }

  // ---------------------------------------------------------------------
  // Integers as decimal text
  // ---------------------------------------------------------------------

  predicate IsDigit(c: char) {
    '0' <= c <= '9'
  }

  function DigitChar(d: nat): (c: char)
    requires d < 10
    ensures IsDigit(c) && DigitValue(c) == d
  {
    ('0' as int + d) as char
  }

  function DigitValue(c: char): (d: nat)
    requires IsDigit(c)
    ensures d < 10
  {
    c as int - '0' as int
  }

  lemma {:induction false} DigitNotSpace(c: char)
    requires IsDigit(c)
    ensures !IsSpace(c) && c != '-' && c != '+'
  {
  }

  /** The value of a string of ASCII digits. */
  function DigitsValue(s: string): nat
    requires forall i :: 0 <= i < |s| ==> IsDigit(s[i])
  {
    if s == [] then 0
    else DigitsValue(s[..|s| - 1]) * 10 + DigitValue(s[|s| - 1])
  }

  /** `str(n)` for a natural number. */
  function NatToString(n: nat): (r: string)
    ensures |r| >= 1 && forall i :: 0 <= i < |r| ==> IsDigit(r[i])
  {
    if n < 10 then [DigitChar(n)] else NatToString(n / 10) + [DigitChar(n % 10)]
  }

  /** `str(i)` for any integer. */
  function IntToString(i: int): string {
    if i < 0 then "-" + NatToString(-i) else NatToString(i)
  }

  /** Reading back the decimal text of `n` gives `n`. */
  lemma {:induction false} DigitsValueOfNatToString(n: nat)
    ensures DigitsValue(NatToString(n)) == n
  {
    if n >= 10 {
      DigitsValueOfNatToString(n / 10);
      var s := NatToString(n);
      assert s[..|s| - 1] == NatToString(n / 10);
    }
  }

  predicate AllDigits(s: string) {
    |s| >= 1 && forall i :: 0 <= i < |s| ==> IsDigit(s[i])
  }

  /**
   * `int(s)` on a string: surrounding whitespace, an optional sign and at least one
   * ASCII digit; `None` where Python raises `ValueError`.
   */
  function ParseInt(s: string): (r: Option<int>)
    ensures r.Some? ==> var t := Strip(s); |t| >= 1
  {
    var t := Strip(s);
    if |t| >= 2 && t[0] == '-' && AllDigits(t[1..]) then Some(-(DigitsValue(t[1..]) as int))
    else if |t| >= 2 && t[0] == '+' && AllDigits(t[1..]) then Some(DigitsValue(t[1..]))
    else if AllDigits(t) then Some(DigitsValue(t))
    else None
  }

  /** Text made of whitespace only. */
  predicate AllSpace(w: string) {
    forall k :: 0 <= k < |w| ==> IsSpace(w[k])
  }

  /** Whitespace around a non-empty stripped text is exactly what `strip()` removes. */
  lemma {:induction false} StripAround(w1: string, x: string, w2: string)
    requires AllSpace(w1) && AllSpace(w2)
    requires x != [] && IsStripped(x)
    ensures Strip(w1 + x + w2) == x
  {
    var s := w1 + x + w2;
    LeadingSpacesExact(s);
    assert forall k :: 0 <= k < |w1| ==> s[k] == w1[k];
    assert s[|w1|] == x[0];
    assert LeadingSpaces(s) == |w1|;
    assert LStrip(s) == x + w2;
    var y := x + w2;
    TrailingSpacesExact(y);
    assert forall k :: |x| <= k < |y| ==> y[k] == w2[k - |x|];
    assert y[|x| - 1] == x[|x| - 1];
    assert TrailingSpaces(y) == |w2|;
    assert RStrip(y) == x;
  }

  /**
   * `int()` reads an optional sign and ASCII digits between whitespace as the signed
   * value of the digits: `int(" +007 ") == 7`, `int("\t-12\n") == -12`.
   */
  lemma {:induction false} ParseIntOfDecimal(w1: string, sign: string, d: string, w2: string)
    requires AllSpace(w1) && AllSpace(w2)
    requires sign == "" || sign == "+" || sign == "-"
    requires AllDigits(d)
    ensures ParseInt(w1 + sign + d + w2) == Some(if sign == "-" then -(DigitsValue(d) as int) else DigitsValue(d))
  {
    var x := sign + d;
    DigitNotSpace(d[0]);
    DigitNotSpace(d[|d| - 1]);
    assert x[|x| - 1] == d[|d| - 1];
    assert w1 + sign + d + w2 == w1 + x + w2;
    StripAround(w1, x, w2);
    var t := Strip(w1 + sign + d + w2);
    assert t == x;
    if sign == "" {
      assert t == d && t[0] != '-' && t[0] != '+';
    } else {
      assert |t| >= 2 && t[0] == sign[0] && t[1..] == d;
    }
  }

  /** `int(str(i)) == i`. */
  lemma {:induction false} ParseIntOfIntToString(i: int)
    ensures ParseInt(IntToString(i)) == Some(i)
  {
    var n: nat := if i < 0 then -i else i;
    var d := NatToString(n);
    DigitsValueOfNatToString(n);
    DigitNotSpace(d[0]);
    DigitNotSpace(d[|d| - 1]);
    assert AllDigits(d);
    if i < 0 {
      var s := "-" + d;
      assert s[0] == '-' && s[1..] == d && s[|s| - 1] == d[|d| - 1];
      StripOfStripped(s);
    } else {
      StripOfStripped(d);
    }
  }
}
