/**
  The parts of Python's `str` that the keyword searcher relies on:
  `isspace`, `strip`, `split()`, `split(sep)`, `join`, `replace` and `int()`.
  Strings are sequences of Unicode scalar values, as Python's are.
 */
module PyStr {
  import opened Wrappers

  /** The characters for which Python's `str.isspace()` is true (the Unicode whitespace set). */
  const SPACES: seq<char> := [
    '\t', '\n', '\U{0B}', '\U{0C}', '\r', '\U{1C}', '\U{1D}', '\U{1E}', '\U{1F}', ' ',
    '\U{85}', '\U{A0}', '\U{1680}',
    '\U{2000}', '\U{2001}', '\U{2002}', '\U{2003}', '\U{2004}', '\U{2005}', '\U{2006}',
    '\U{2007}', '\U{2008}', '\U{2009}', '\U{200A}',
    '\U{2028}', '\U{2029}', '\U{202F}', '\U{205F}', '\U{3000}'
  ]

  /** Python's `str.isspace()` on one character. */
  predicate IsSpace(c: char) {
    SpaceFrom(c, 0)
  }

  /** Is `c` among the whitespace characters from index `i` of `SPACES` on? */
  predicate SpaceFrom(c: char, i: nat)
    decreases |SPACES| - i
  {
    i < |SPACES| && (SPACES[i] == c || SpaceFrom(c, i + 1))
  }

  lemma {:induction false} SpaceFromIn(c: char, i: nat)
    ensures SpaceFrom(c, i) <==> exists j :: i <= j < |SPACES| && SPACES[j] == c
    decreases |SPACES| - i
  {
    if i < |SPACES| {
      SpaceFromIn(c, i + 1);
    }
  }

  /** `isspace()` holds exactly on the listed characters. */
  lemma {:induction false} IsSpaceListed(c: char)
    ensures IsSpace(c) <==> c in SPACES
  {
    SpaceFromIn(c, 0);
  }

  /** Neither end of `s` is whitespace: what `strip()` leaves behind. */
  predicate Stripped(s: string) {
    s == [] || (!IsSpace(s[0]) && !IsSpace(s[|s| - 1]))
  }

  predicate StartsWith(s: string, prefix: string) {
    |prefix| <= |s| && s[..|prefix|] == prefix
  }

  /** `pat` occurs in `s` starting at index `i`. */
  predicate OccursAt(s: string, pat: string, i: int) {
    0 <= i && i + |pat| <= |s| && s[i..i + |pat|] == pat
  }

  /** `pat in s` */
  predicate Occurs(s: string, pat: string) {
    exists i :: 0 <= i <= |s| && OccursAt(s, pat, i)
  }

  /** The index of the first character at or after `i` that is not whitespace, or `|s|`. */
  function SkipSpaces(s: string, i: nat): (k: nat)
    requires i <= |s|
    ensures i <= k <= |s|
    ensures k < |s| ==> !IsSpace(s[k])
    decreases |s| - i
  {
    if i < |s| && IsSpace(s[i]) then SkipSpaces(s, i + 1) else i
  }

  /** What `SkipSpaces` skips is whitespace. */
  lemma {:induction false} SkipSpacesSkipped(s: string, i: nat)
    requires i <= |s|
    ensures forall j :: i <= j < SkipSpaces(s, i) ==> IsSpace(s[j])
    decreases |s| - i
  {
    if i < |s| && IsSpace(s[i]) {
      SkipSpacesSkipped(s, i + 1);
    }
  }

  /** The index just past the last character before `j` and not before `lo` that is not whitespace, or `lo`. */
  function BackSpaces(s: string, lo: nat, j: nat): (k: nat)
    requires lo <= j <= |s|
    ensures lo <= k <= j
    ensures k > lo ==> !IsSpace(s[k - 1])
    decreases j
  {
    if j > lo && IsSpace(s[j - 1]) then BackSpaces(s, lo, j - 1) else j
  }

  /** What `BackSpaces` skips is whitespace. */
  lemma {:induction false} BackSpacesSkipped(s: string, lo: nat, j: nat)
    requires lo <= j <= |s|
    ensures forall m :: BackSpaces(s, lo, j) <= m < j ==> IsSpace(s[m])
    decreases j
  {
    if j > lo && IsSpace(s[j - 1]) {
      BackSpacesSkipped(s, lo, j - 1);
    }
  }

  /** `s.lstrip()` */
  function TrimLeft(s: string): (r: string)
    ensures r == [] || !IsSpace(r[0])
  {
    s[SkipSpaces(s, 0)..]
  }

  /** `s.strip()`: the result is `s` without its leading and trailing whitespace. */
  function Strip(s: string): (r: string)
    ensures Stripped(r)
  {
    var a := SkipSpaces(s, 0);
    s[a..BackSpaces(s, a, |s|)]
  }

  /** What `strip()` keeps is one slice of the input, with only whitespace before and after it. */
  lemma {:induction false} StripBounds(s: string) returns (a: nat, b: nat)
    ensures a <= b <= |s| && Strip(s) == s[a..b]
    ensures forall i :: 0 <= i < a ==> IsSpace(s[i])
    ensures forall i :: b <= i < |s| ==> IsSpace(s[i])
  {
    a := SkipSpaces(s, 0);
    b := BackSpaces(s, a, |s|);
    SkipSpacesSkipped(s, 0);
    BackSpacesSkipped(s, a, |s|);
  }

  /** Stripping a string that already has no whitespace at its ends changes nothing. */
  lemma {:induction false} StripStripped(s: string)
    requires Stripped(s)
    ensures Strip(s) == s
  {
    assert SkipSpaces(s, 0) == 0;
    assert BackSpaces(s, 0, |s|) == |s|;
    assert s[0..|s|] == s;
  }

  /** A character absent from a string is absent from what `strip()` keeps of it, and so is a pattern. */
  lemma {:induction false} StripKeepsAbsence(s: string, c: char, pat: string)
    ensures c !in s ==> c !in Strip(s)
    ensures !Occurs(s, pat) ==> !Occurs(Strip(s), pat)
  {
    var a, b := StripBounds(s);
    var t := Strip(s);
    if c in t {
      InSlice(s, a, b, t, c);
    }
    if Occurs(t, pat) {
      OccursSlice(s, a, b, t, pat);
    }
  }

  /** A character of a slice `t` of `s` is a character of `s`. */
  lemma {:induction false} InSlice(s: string, a: nat, b: nat, t: string, c: char)
    requires a <= b <= |s| && t == s[a..b]
    requires c in t
    ensures c in s
  {
    var k :| 0 <= k < |t| && t[k] == c;
    assert s[a + k] == c;
  }

  /** A one-character pattern occurs exactly where the character does. */
  lemma {:induction false} CharOccurs(s: string, c: char)
    ensures Occurs(s, [c]) <==> c in s
  {
    if c in s {
      var k :| 0 <= k < |s| && s[k] == c;
      assert s[k..k + 1] == [c];
      assert OccursAt(s, [c], k);
    }
    if Occurs(s, [c]) {
      var k :| 0 <= k <= |s| && OccursAt(s, [c], k);
      assert s[k..k + 1][0] == s[k];
    }
  }

  /** An occurrence in `a + b` that starts inside `b` is an occurrence in `b`. */
  lemma {:induction false} OccursAtShift(a: string, b: string, pat: string, i: int)
    requires OccursAt(a + b, pat, i) && i >= |a|
    ensures OccursAt(b, pat, i - |a|)
  {
    var j := i - |a|;
    forall k | 0 <= k < |pat| ensures b[j + k] == pat[k] {
      assert (a + b)[i..i + |pat|][k] == pat[k];
      assert (a + b)[i + k] == b[j + k];
    }
    assert b[j..j + |pat|] == pat;
  }

  /** Length of the leading run of non-whitespace characters. */
  function TokenEnd(t: string): (n: nat)
    ensures n <= |t|
    ensures forall i :: 0 <= i < n ==> !IsSpace(t[i])
    ensures n < |t| ==> IsSpace(t[n])
    decreases |t|
  {
    if t == [] || IsSpace(t[0]) then 0 else 1 + TokenEnd(t[1..])
  }

  /** A piece `split()` can return: nonempty, with no whitespace in it. */
  predicate IsToken(w: string) {
    w != [] && forall i :: 0 <= i < |w| ==> !IsSpace(w[i])
  }

  predicate AllSpaces(s: string) {
    forall i :: 0 <= i < |s| ==> IsSpace(s[i])
  }

  /** `s.split()` with no argument: the maximal runs of non-whitespace characters, in order. */
  function Split(s: string): (r: seq<string>)
    ensures forall k :: 0 <= k < |r| ==> IsToken(r[k])
    decreases |s|
  {
    var t := TrimLeft(s);
    if t == [] then [] else
      var n := TokenEnd(t);
      [t[..n]] + Split(t[n..])
  }

  /** `SkipSpaces` stops at the first character that is not whitespace. */
  lemma {:induction false} SkipSpacesAt(s: string, i: nat, k: nat)
    requires i <= k <= |s|
    requires forall j :: i <= j < k ==> IsSpace(s[j])
    requires k == |s| || !IsSpace(s[k])
    ensures SkipSpaces(s, i) == k
    decreases k - i
  {
    if i < k {
      SkipSpacesAt(s, i + 1, k);
    }
  }

  /** `TokenEnd` stops at the first whitespace character. */
  lemma {:induction false} TokenEndAt(t: string, n: nat)
    requires n <= |t|
    requires forall i :: 0 <= i < n ==> !IsSpace(t[i])
    requires n == |t| || IsSpace(t[n])
    ensures TokenEnd(t) == n
    decreases n
  {
    if n > 0 {
      TokenEndAt(t[1..], n - 1);
    }
  }

  /** Leading whitespace does not change what `lstrip()` leaves. */
  lemma {:induction false} TrimLeftSpaces(x: string, y: string)
    requires AllSpaces(x)
    ensures TrimLeft(x + y) == TrimLeft(y)
  {
    var k := SkipSpaces(y, 0);
    SkipSpacesSkipped(y, 0);
    var s := x + y;
    forall j | 0 <= j < |x| + k ensures IsSpace(s[j]) {
      if j >= |x| { assert s[j] == y[j - |x|]; }
    }
    if |x| + k < |s| {
      assert s[|x| + k] == y[k];
    }
    SkipSpacesAt(s, 0, |x| + k);
    assert s[|x| + k..] == y[k..];
  }

  /** `split()` looks only at what `lstrip()` leaves. */
  lemma {:induction false} SplitTrimLeft(s: string, s': string)
    requires TrimLeft(s) == TrimLeft(s')
    ensures Split(s) == Split(s')
  {
  }

  /** `split()` finds no word exactly in a string of whitespace. */
  lemma {:induction false} SplitEmpty(s: string)
    ensures Split(s) == [] <==> AllSpaces(s)
  {
    var k := SkipSpaces(s, 0);
    SkipSpacesSkipped(s, 0);
    assert Split(s) == [] <==> k == |s|;
  }

  /** A token ends the one non-whitespace run it lies in, when what follows begins with whitespace. */
  lemma {:induction false} TokenEndAppend(t: string, u: string)
    requires TokenEnd(t) < |t| || (u != [] && IsSpace(u[0]))
    ensures TokenEnd(t + u) == TokenEnd(t)
  {
    var n := TokenEnd(t);
    var s := t + u;
    forall i | 0 <= i < n ensures !IsSpace(s[i]) {
      assert s[i] == t[i];
    }
    if n < |t| {
      assert s[n] == t[n];
    } else {
      assert s[n] == u[0];
    }
    TokenEndAt(s, n);
  }

  /** Splitting at a run of whitespace splits each side on its own. */
  lemma {:induction false} SplitSpaced(a: string, sp: string, b: string)
    requires sp != [] && AllSpaces(sp)
    ensures Split(a + sp + b) == Split(a) + Split(b)
    decreases |a|
  {
    if TrimLeft(a) == [] {
      SplitBlankHead(a, sp, b);
    } else {
      var t := TrimLeft(a);
      var n := TokenEnd(t);
      var w, rest := t[..n], t[n..];
      SplitWordHead(a, sp, b);
      SplitSpaced(rest, sp, b);
      ConcatAssoc([w], Split(rest), Split(b));
    }
  }

  lemma ConcatAssoc<T>(x: seq<T>, y: seq<T>, z: seq<T>)
    ensures x + (y + z) == (x + y) + z
  {
  }

  /** Before a run of whitespace, a string of whitespace only adds nothing. */
  lemma {:induction false} SplitBlankHead(a: string, sp: string, b: string)
    requires sp != [] && AllSpaces(sp) && TrimLeft(a) == []
    ensures Split(a + sp + b) == Split(a) + Split(b)
  {
    SplitEmpty(a);
    assert AllSpaces(a + sp) by {
      forall j | 0 <= j < |a + sp| ensures IsSpace((a + sp)[j]) {
        if j >= |a| { assert (a + sp)[j] == sp[j - |a|]; }
      }
    }
    assert a + sp + b == (a + sp) + b;
    TrimLeftSpaces(a + sp, b);
    SplitTrimLeft(a + sp + b, b);
  }

  /** Before a run of whitespace, the first word of `a` is the first word of the whole. */
  lemma {:induction false} SplitWordHead(a: string, sp: string, b: string)
    requires sp != [] && AllSpaces(sp) && TrimLeft(a) != []
    ensures var t := TrimLeft(a); var n := TokenEnd(t);
      && 0 < n <= |t| < |a| + 1
      && Split(a) == [t[..n]] + Split(t[n..])
      && Split(a + sp + b) == [t[..n]] + Split(t[n..] + sp + b)
  {
    var t := TrimLeft(a);
    var u := t + sp + b;
    TrimLeftWordHead(a, sp + b);
    assert a + sp + b == a + (sp + b);
    var n := TokenEnd(t);
    assert u == t + (sp + b);
    TokenEndAppend(t, sp + b);
    assert u[..n] == t[..n];
    assert u[n..] == t[n..] + sp + b;
  }

  /** When `a` holds a word, `lstrip()` of `a + v` keeps all of `v`. */
  lemma {:induction false} TrimLeftWordHead(a: string, v: string)
    requires TrimLeft(a) != []
    ensures TrimLeft(a + v) == TrimLeft(a) + v
  {
    var s := a + v;
    var k := SkipSpaces(a, 0);
    SkipSpacesSkipped(a, 0);
    forall j | 0 <= j < k ensures IsSpace(s[j]) {
      assert s[j] == a[j];
    }
    assert s[k] == a[k];
    SkipSpacesAt(s, 0, k);
    assert s[k..] == a[k..] + v;
  }

  /** Trailing whitespace does not change what `split()` finds. */
  lemma {:induction false} SplitTrailing(m: string, y: string)
    requires AllSpaces(y)
    ensures Split(m + y) == Split(m)
  {
    if y == [] {
      assert m + y == m;
    } else {
      SplitSpaced(m, y, []);
      assert m + y + [] == m + y;
      SplitEmpty([]);
    }
  }

  /** Stripping does not change what `split()` finds. */
  lemma {:induction false} SplitStrip(s: string)
    ensures Split(Strip(s)) == Split(s)
  {
    var a, b := StripBounds(s);
    var x, m, y := s[..a], s[a..b], s[b..];
    assert AllSpaces(x) by {
      forall i | 0 <= i < |x| ensures IsSpace(x[i]) { assert x[i] == s[i]; }
    }
    assert AllSpaces(y) by {
      forall i | 0 <= i < |y| ensures IsSpace(y[i]) { assert y[i] == s[b + i]; }
    }
    assert s == x + (m + y);
    TrimLeftSpaces(x, m + y);
    SplitTrimLeft(s, m + y);
    SplitTrailing(m, y);
  }

  /**
    Strings of the same length with whitespace at the same places and the same characters
    elsewhere split alike: which whitespace character separates two words does not matter.
   */
  lemma {:induction false} SplitSameWords(s: string, s': string)
    requires |s| == |s'|
    requires forall i :: 0 <= i < |s| ==> (IsSpace(s[i]) <==> IsSpace(s'[i]))
    requires forall i :: 0 <= i < |s| && !IsSpace(s[i]) ==> s[i] == s'[i]
    ensures Split(s) == Split(s')
    decreases |s|
  {
    var k := SkipSpaces(s, 0);
    SkipSpacesSkipped(s, 0);
    SkipSpacesAt(s', 0, k);
    if k < |s| {
      var t, t' := s[k..], s'[k..];
      var n := TokenEnd(t);
      TokenEndAt(t', n);
      assert t[..n] == t'[..n];
      SplitSameWords(t[n..], t'[n..]);
    }
  }

  function JoinSpaced(parts: seq<string>): string
    decreases |parts|
  {
    if parts == [] then [] else if |parts| == 1 then parts[0] else parts[0] + " " + JoinSpaced(parts[1..])
  }

  /** A token splits into itself. */
  lemma {:induction false} SplitToken(w: string)
    requires IsToken(w)
    ensures Split(w) == [w]
  {
    SkipSpacesAt(w, 0, 0);
    TokenEndAt(w, |w|);
    assert w[..|w|] == w && w[|w|..] == [];
    SplitEmpty([]);
  }

  /** `split()` gives back words joined by single spaces: `" ".join(ws).split() == ws` for tokens `ws`. */
  lemma {:induction false} SplitJoinSpaced(parts: seq<string>)
    requires forall k :: 0 <= k < |parts| ==> IsToken(parts[k])
    ensures Split(JoinSpaced(parts)) == parts
    decreases |parts|
  {
    if parts != [] {
      var w := parts[0];
      SplitToken(w);
      if |parts| > 1 {
        IsSpaceListed(' ');
        SplitJoinSpaced(parts[1..]);
        SplitSpaced(w, " ", JoinSpaced(parts[1..]));
        assert [w] + parts[1..] == parts;
      }
    }
  }

  /** `s.split(sep)` for a one-character separator: the pieces between separators, empty ones included. */
  function SplitOn(s: string, sep: char): (r: seq<string>)
    ensures |r| >= 1
    ensures forall k :: 0 <= k < |r| ==> sep !in r[k]
    decreases |s|
  {
    if s == [] then [[]]
    else
      var rest := SplitOn(s[1..], sep);
      if s[0] == sep then [[]] + rest else [[s[0]] + rest[0]] + rest[1..]
  }

  /** `sep.join(parts)` for a one-character separator. */
  function Join(parts: seq<string>, sep: char): string
    decreases |parts|
  {
    if parts == [] then []
    else if |parts| == 1 then parts[0]
    else parts[0] + [sep] + Join(parts[1..], sep)
  }

  /** Joining the pieces of a split gives the string back. */
  lemma {:induction false} JoinSplitOn(s: string, sep: char)
    ensures Join(SplitOn(s, sep), sep) == s
    decreases |s|
  {
    if s != [] {
      JoinSplitOn(s[1..], sep);
      var rest := SplitOn(s[1..], sep);
      if s[0] == sep {
        assert SplitOn(s, sep) == [[]] + rest;
        assert Join([[]] + rest, sep) == [] + [sep] + Join(rest, sep);
      } else {
        var r := [[s[0]] + rest[0]] + rest[1..];
        assert SplitOn(s, sep) == r;
        if |rest| == 1 {
          assert Join(r, sep) == [s[0]] + rest[0];
        } else {
          assert Join(rest, sep) == rest[0] + [sep] + Join(rest[1..], sep);
          assert r[1..] == rest[1..];
          assert Join(r, sep) == [s[0]] + rest[0] + [sep] + Join(rest[1..], sep);
        }
      }
    }
  }

  /** Splitting a join of separator-free pieces gives the pieces back. */
  lemma {:induction false} SplitOnJoin(parts: seq<string>, sep: char)
    requires |parts| >= 1
    requires forall k :: 0 <= k < |parts| ==> sep !in parts[k]
    ensures SplitOn(Join(parts, sep), sep) == parts
    decreases |parts|
  {
    if |parts| == 1 {
      SplitOnFree(parts[0], sep);
    } else {
      SplitOnJoin(parts[1..], sep);
      SplitOnAppend(parts[0], Join(parts[1..], sep), sep);
      assert [parts[0]] + parts[1..] == parts;
    }
  }

  /** A string without the separator splits into itself alone. */
  lemma {:induction false} SplitOnFree(s: string, sep: char)
    requires sep !in s
    ensures SplitOn(s, sep) == [s]
    decreases |s|
  {
    if s != [] {
      assert sep !in s[1..] by {
        forall i | 0 <= i < |s[1..]| ensures s[1..][i] != sep { assert s[1..][i] == s[i + 1]; }
      }
      SplitOnFree(s[1..], sep);
      assert [s[0]] + s[1..] == s;
    }
  }

  /** Splitting `a + [sep] + b`, with `sep` not in `a`, puts `a` first. */
  lemma {:induction false} SplitOnAppend(a: string, b: string, sep: char)
    requires sep !in a
    ensures SplitOn(a + [sep] + b, sep) == [a] + SplitOn(b, sep)
    decreases |a|
  {
    if a == [] {
      assert [] + [sep] + b == [sep] + b;
      assert ([sep] + b)[1..] == b;
    } else {
      assert sep !in a[1..] by {
        forall i | 0 <= i < |a[1..]| ensures a[1..][i] != sep { assert a[1..][i] == a[i + 1]; }
      }
      SplitOnAppend(a[1..], b, sep);
      var s := a + [sep] + b;
      assert s[0] == a[0];
      assert s[1..] == a[1..] + [sep] + b;
      var rest := SplitOn(s[1..], sep);
      assert rest == [a[1..]] + SplitOn(b, sep);
      assert [a[0]] + a[1..] == a;
    }
  }

  /** `s.replace(pat, repl)`: every non-overlapping occurrence of `pat`, scanning left to right, becomes `repl`. */
  function ReplaceAll(s: string, pat: string, repl: string): string
    requires pat != []
    decreases |s|
  {
    if StartsWith(s, pat) then repl + ReplaceAll(s[|pat|..], pat, repl)
    else if s == [] then []
    else [s[0]] + ReplaceAll(s[1..], pat, repl)
  }

  /** Only characters of `s` and of `repl` appear in the result. */
  lemma {:induction false} ReplaceAllChars(s: string, pat: string, repl: string, c: char)
    requires pat != []
    requires c !in s && c !in repl
    ensures c !in ReplaceAll(s, pat, repl)
    decreases |s|
  {
    if StartsWith(s, pat) {
      assert c !in s[|pat|..] by {
        forall i | 0 <= i < |s[|pat|..]| ensures s[|pat|..][i] != c { assert s[|pat|..][i] == s[i + |pat|]; }
      }
      ReplaceAllChars(s[|pat|..], pat, repl, c);
    } else if s != [] {
      assert c !in s[1..] by {
        forall i | 0 <= i < |s[1..]| ensures s[1..][i] != c { assert s[1..][i] == s[i + 1]; }
      }
      ReplaceAllChars(s[1..], pat, repl, c);
    }
  }

  /** A replacement of a one-character pattern by something without it removes every occurrence. */
  lemma {:induction false} ReplaceCharRemoves(s: string, c: char, repl: string)
    requires c !in repl
    ensures c !in ReplaceAll(s, [c], repl)
    decreases |s|
  {
    if s != [] {
      assert c !in s[1..] || c in s[1..];
      ReplaceCharRemoves(s[1..], c, repl);
      if StartsWith(s, [c]) {
        assert s[|[c]|..] == s[1..];
      } else {
        assert s[0] != c by { assert s[..1] == [s[0]]; }
      }
    }
  }

  /** Replacing a pattern that does not occur changes nothing. */
  lemma {:induction false} ReplaceAbsent(s: string, pat: string, repl: string)
    requires pat != []
    requires !Occurs(s, pat)
    ensures ReplaceAll(s, pat, repl) == s
    decreases |s|
  {
    if s != [] {
      assert !StartsWith(s, pat) by {
        if StartsWith(s, pat) { assert OccursAt(s, pat, 0); }
      }
      assert !Occurs(s[1..], pat) by {
        if Occurs(s[1..], pat) { OccursSlice(s, 1, |s|, s[1..], pat); }
      }
      ReplaceAbsent(s[1..], pat, repl);
      assert [s[0]] + s[1..] == s;
    }
  }

  /** Replacing one character by one character maps the string character by character. */
  lemma {:induction false} ReplaceCharPointwise(s: string, c: char, d: char)
    ensures |ReplaceAll(s, [c], [d])| == |s|
    ensures forall i :: 0 <= i < |s| ==> ReplaceAll(s, [c], [d])[i] == if s[i] == c then d else s[i]
    decreases |s|
  {
    if s != [] {
      ReplaceCharPointwise(s[1..], c, d);
      assert StartsWith(s, [c]) <==> s[0] == c by { assert s[..1] == [s[0]]; }
      assert s[|[c]|..] == s[1..];
    }
  }

  /** A pattern that occurs in a slice `t` of `s` occurs in `s`. */
  lemma {:induction false} OccursSlice(s: string, a: nat, b: nat, t: string, pat: string)
    requires a <= b <= |s| && t == s[a..b]
    requires Occurs(t, pat)
    ensures Occurs(s, pat)
  {
    var i :| 0 <= i <= |t| && OccursAt(t, pat, i);
    assert i + |pat| <= b - a;
    forall k | 0 <= k < |pat| ensures s[a + i + k] == pat[k] {
      assert t[i..i + |pat|][k] == pat[k];
    }
    assert s[a + i..a + i + |pat|] == pat;
    assert OccursAt(s, pat, a + i);
  }

  predicate IsDigit(c: char) {
    '0' <= c <= '9'
  }

  /** Python's digit-group syntax: digits, with single underscores allowed between two digits. */
  predicate IsDigitGroup(s: string) {
    && s != []
    && IsDigit(s[0]) && IsDigit(s[|s| - 1])
    && forall i :: 0 <= i < |s| - 1 ==> GroupStep(s, i)
  }

  /** Inside a digit group, a character is a digit, or an underscore followed by a digit. */
  predicate GroupStep(s: string, i: nat)
    requires i < |s| - 1
  {
    IsDigit(s[i]) || (s[i] == '_' && IsDigit(s[i + 1]))
  }

  /** The value of a digit group, underscores skipped. */
  function DigitsValue(s: string): nat
    decreases |s|
  {
    if s == [] then 0
    else if IsDigit(s[|s| - 1]) then 10 * DigitsValue(s[..|s| - 1]) + (s[|s| - 1] as int - '0' as int)
    else DigitsValue(s[..|s| - 1])
  }

  /** `int(s)` on a string: None where Python raises ValueError. Only ASCII digits are read. */
  function ParseInt(s: string): (r: Option<int>)
    ensures r.Some? ==> Strip(s) != []
  {
    var t := Strip(s);
    if t == [] then None
    else if t[0] == '+' || t[0] == '-' then
      var v: int := DigitsValue(t[1..]);
      if IsDigitGroup(t[1..]) then Some(if t[0] == '-' then -v else v) else None
    else if IsDigitGroup(t) then Some(DigitsValue(t))
    else None
  }

  /** A digit is not whitespace, and neither is a sign. */
  lemma {:induction false} DigitNotSpace(c: char)
    requires IsDigit(c) || c == '-' || c == '+'
    ensures !IsSpace(c)
  {
    IsSpaceListed(c);
  }

  /** The digit character for `d`. */
  function DigitChar(d: nat): (c: char)
    requires d < 10
    ensures IsDigit(c)
  {
    ('0' as int + d) as char
  }

  /** `str(n)` for `n >= 0`: its decimal digits, most significant first, without leading zeros. */
  function NatDigits(n: nat): (r: string)
    ensures r != [] && forall i :: 0 <= i < |r| ==> IsDigit(r[i])
    decreases n
  {
    if n < 10 then [DigitChar(n)] else NatDigits(n / 10) + [DigitChar(n % 10)]
  }

  /** `str(n)`: the decimal form of an integer, with a minus sign when it is negative. */
  function Decimal(n: int): string {
    if n < 0 then "-" + NatDigits(-n) else NatDigits(n)
  }

  /** A string of digits is a digit group, and its value is the number whose digits they are. */
  lemma {:induction false} NatDigitsValue(n: nat)
    ensures IsDigitGroup(NatDigits(n)) && DigitsValue(NatDigits(n)) == n
    decreases n
  {
    var r := NatDigits(n);
    if n >= 10 {
      NatDigitsValue(n / 10);
      assert r[..|r| - 1] == NatDigits(n / 10);
    }
  }

  /** `int(str(n)) == n` for every integer `n`. */
  lemma {:induction false} ParseIntDecimal(n: int)
    ensures ParseInt(Decimal(n)) == Some(n)
  {
    var s := Decimal(n);
    var m: nat := if n < 0 then -n else n;
    var ds := NatDigits(m);
    NatDigitsValue(m);
    DigitNotSpace(s[0]);
    DigitNotSpace(s[|s| - 1]);
    StripStripped(s);
    if n < 0 {
      assert s[1..] == ds;
    }
  }

  /**
    `int()` raises on a stripped string holding a character that is not a digit, an
    underscore, or a sign in front: `int("1.5")` and `int("12a")` raise ValueError.
   */
  lemma {:induction false} ParseIntRejects(s: string, i: nat)
    requires i < |Strip(s)|
    requires !IsDigit(Strip(s)[i]) && Strip(s)[i] != '_'
    requires i == 0 ==> Strip(s)[i] != '+' && Strip(s)[i] != '-'
    ensures ParseInt(s).None?
  {
    var t := Strip(s);
    if t[0] == '+' || t[0] == '-' {
      assert t[1..][i - 1] == t[i];
      NotDigitGroup(t[1..], i - 1);
    } else {
      NotDigitGroup(t, i);
    }
  }

  /** A string with a character that is neither a digit nor an underscore is not a digit group. */
  lemma {:induction false} NotDigitGroup(g: string, j: nat)
    requires j < |g| && !IsDigit(g[j]) && g[j] != '_'
    ensures !IsDigitGroup(g)
  {
    if j < |g| - 1 {
      assert !GroupStep(g, j);
    } else {
      assert !IsDigit(g[|g| - 1]);
    }
  }

  /** `int(s)` is 0 on a string that strips to "0". */
  lemma {:induction false} ParseIntZero(s: string)
    requires Strip(s) == "0"
    ensures ParseInt(s) == Some(0)
  {
    assert IsDigitGroup("0");
    assert DigitsValue("0") == 10 * DigitsValue("0"[..0]) + 0;
  }
}
