/** Strings as JavaScript sees them: the whitespace class shared by `\s` and
    `String.prototype.trim`, blankness, prefix and suffix tests, `split` on a
    single character, the UTF-16 code-unit order used by `Array.prototype.sort()`,
    and the `Array.from(new Set(xs)).sort()` idiom. */
module Text {

  /** The characters JavaScript's `\s` and `trim` treat as white space
      (WhiteSpace and LineTerminator of ECMA-262). */
  predicate IsSpace(c: char) {
    c == '\t' || c == '\n' || c == '\U{000B}' || c == '\U{000C}' || c == '\r' || c == ' ' ||
    c == '\U{00A0}' || c == '\U{1680}' || ('\U{2000}' <= c <= '\U{200A}') ||
    c == '\U{2028}' || c == '\U{2029}' || c == '\U{202F}' || c == '\U{205F}' ||
    c == '\U{3000}' || c == '\U{FEFF}'
  }

  /** The characters JavaScript's `.` does not match (LineTerminator). */
  predicate IsLineTerminator(c: char) {
    c == '\n' || c == '\r' || c == '\U{2028}' || c == '\U{2029}'
  }

  predicate AllSpace(s: string) {
    forall k :: 0 <= k < |s| ==> IsSpace(s[k])
  }

  /** `s` without its leading white space. */
  function TrimStart(s: string): string {
    if s == [] || !IsSpace(s[0]) then s else TrimStart(s[1..])
  }

  /** `s` without its trailing white space. */
  function TrimEnd(s: string): string {
    if s == [] || !IsSpace(s[|s| - 1]) then s else TrimEnd(s[..|s| - 1])
  }

  /** `String.prototype.trim`. */
  function Trim(s: string): (r: string)
    ensures |r| <= |s|
  {
    TrimStartSpec(s);
    TrimEndSpec(TrimStart(s));
    TrimEnd(TrimStart(s))
  }

  /** No white space at either end. */
  predicate IsTrimmed(s: string) {
    s != [] ==> !IsSpace(s[0]) && !IsSpace(s[|s| - 1])
  }

  lemma {:induction false} TrimStartSpec(s: string)
    ensures |TrimStart(s)| <= |s| && TrimStart(s) == s[|s| - |TrimStart(s)|..]
    ensures AllSpace(s[..|s| - |TrimStart(s)|])
    ensures TrimStart(s) != [] ==> !IsSpace(TrimStart(s)[0])
  {
    if s != [] && IsSpace(s[0]) {
      TrimStartSpec(s[1..]);
      var n := |s| - |TrimStart(s)|;
      forall k | 0 <= k < n ensures IsSpace(s[..n][k]) {
        if k > 0 { assert s[..n][k] == s[1..][..n - 1][k - 1]; }
      }
    }
  }

  lemma {:induction false} TrimEndSpec(s: string)
    ensures |TrimEnd(s)| <= |s| && TrimEnd(s) == s[..|TrimEnd(s)|]
    ensures AllSpace(s[|TrimEnd(s)|..])
    ensures TrimEnd(s) != [] ==> !IsSpace(TrimEnd(s)[|TrimEnd(s)| - 1])
  {
    if s != [] && IsSpace(s[|s| - 1]) {
      var p := s[..|s| - 1];
      TrimEndSpec(p);
      var n := |TrimEnd(s)|;
      forall k | n <= k < |s| ensures IsSpace(s[k]) {
        if k < |s| - 1 { assert s[k] == p[n..][k - n]; }
      }
      assert p[..n] == s[..n];
    }
  }

  /** `trim` removes white space from both ends and nothing else: the result
      is the middle of `s`, and what it drops is white space. */
  lemma TrimSpec(s: string)
    ensures IsTrimmed(Trim(s))
    ensures |Trim(s)| <= |s|
    ensures var i := |s| - |TrimStart(s)|;
      && 0 <= i && i + |Trim(s)| <= |s| && Trim(s) == s[i..i + |Trim(s)|]
      && AllSpace(s[..i]) && AllSpace(s[i + |Trim(s)|..])
  {
    var t := TrimStart(s);
    TrimStartSpec(s);
    TrimEndSpec(t);
    var i := |s| - |t|;
    var r := TrimEnd(t);
    assert t[|r|..] == s[i + |r|..];
    if r != [] { assert r[0] == t[0]; }
  }

  /** `trim` leaves a string with no white space at its ends unchanged. */
  lemma TrimTrimmed(s: string)
    requires IsTrimmed(s)
    ensures Trim(s) == s
  {
  }

  /** A string that `trim` turns into "" (the `isBlank` test of the source on strings). */
  predicate IsBlank(s: string) {
    Trim(s) == []
  }

  lemma {:induction false} TrimStartEmptyIffAllSpace(s: string)
    ensures TrimStart(s) == [] <==> AllSpace(s)
  {
    TrimStartSpec(s);
    if s != [] && IsSpace(s[0]) {
      TrimStartEmptyIffAllSpace(s[1..]);
      assert AllSpace(s[1..]) ==> AllSpace(s) by {
        if AllSpace(s[1..]) {
          forall k | 0 <= k < |s| ensures IsSpace(s[k]) {
            if k > 0 { assert s[k] == s[1..][k - 1]; }
          }
        }
      }
    }
  }

  /** Blank means made of white space only. */
  lemma BlankIffAllSpace(s: string)
    ensures IsBlank(s) <==> AllSpace(s)
  {
    TrimStartEmptyIffAllSpace(s);
    var t := TrimStart(s);
    TrimStartSpec(s);
    TrimEndSpec(t);
    if TrimEnd(t) == [] {
      assert AllSpace(t[0..]);
      assert t[0..] == t;
      assert s == s[..|s| - |t|] + t;
    }
  }

  predicate StartsWith(s: string, prefix: string) {
    |prefix| <= |s| && s[..|prefix|] == prefix
  }

  predicate EndsWith(s: string, suffix: string) {
    |suffix| <= |s| && s[|s| - |suffix|..] == suffix
  }

  /** `s.split(sep)` for a one-character separator: the pieces between separators,
      always at least one (the empty string splits into [""]). */
  function Split(s: string, sep: char): (r: seq<string>)
    ensures |r| >= 1
    ensures forall i :: 0 <= i < |r| ==> sep !in r[i]
  {
    if s == [] then [[]]
    else
      var rest := Split(s[1..], sep);
      if s[0] == sep then [[]] + rest else [[s[0]] + rest[0]] + rest[1..]
  }

  /** `parts.join(sep)` for a one-character separator. */
  function Join(parts: seq<string>, sep: char): string {
    if parts == [] then []
    else if |parts| == 1 then parts[0]
    else parts[0] + [sep] + Join(parts[1..], sep)
  }

  /** Joining separator-free parts puts exactly one separator between each
      two neighbours. */
  lemma {:induction false} JoinSeparators(parts: seq<string>, sep: char)
    requires parts != []
    requires forall i :: 0 <= i < |parts| ==> sep !in parts[i]
    ensures multiset(Join(parts, sep))[sep] == |parts| - 1
  {
    assert multiset(parts[0])[sep] == 0;
    if |parts| > 1 {
      assert forall i :: 0 <= i < |parts| - 1 ==> parts[1..][i] == parts[i + 1];
      JoinSeparators(parts[1..], sep);
    }
  }

  /** Joining the pieces gives back the string: `split` loses nothing. */
  lemma {:induction false} JoinSplit(s: string, sep: char)
    ensures Join(Split(s, sep), sep) == s
  {
    if s != [] {
      var rest := Split(s[1..], sep);
      JoinSplit(s[1..], sep);
      if s[0] == sep {
        JoinCons([], rest, sep);
      } else {
        JoinCons(rest[0], rest[1..], sep);
        assert [rest[0]] + rest[1..] == rest;
        JoinCons([s[0]] + rest[0], rest[1..], sep);
      }
      assert s == [s[0]] + s[1..];
    }
  }

  lemma JoinCons(a: string, rest: seq<string>, sep: char)
    ensures Join([a] + rest, sep) == if rest == [] then a else a + [sep] + Join(rest, sep)
  {
    assert ([a] + rest)[1..] == rest;
  }

  lemma {:induction false} SplitPrefix(p: string, rest: string, sep: char)
    requires sep !in p
    ensures Split(p + [sep] + rest, sep) == [p] + Split(rest, sep)
  {
    if p == [] {
      assert p + [sep] + rest == [sep] + rest;
      assert ([sep] + rest)[1..] == rest;
    } else {
      assert (p + [sep] + rest)[1..] == p[1..] + [sep] + rest;
      SplitPrefix(p[1..], rest, sep);
      assert [p[0]] + p[1..] == p;
    }
  }

  lemma {:induction false} SplitWhole(p: string, sep: char)
    requires sep !in p
    ensures Split(p, sep) == [p]
  {
    if p != [] {
      SplitWhole(p[1..], sep);
      assert [p[0]] + p[1..] == p;
    }
  }

  /** Splitting undoes joining exactly when no piece contains the separator. */
  lemma {:induction false} SplitJoin(parts: seq<string>, sep: char)
    requires |parts| >= 1
    requires forall i :: 0 <= i < |parts| ==> sep !in parts[i]
    ensures Split(Join(parts, sep), sep) == parts
  {
    if |parts| == 1 {
      SplitWhole(parts[0], sep);
    } else {
      SplitJoin(parts[1..], sep);
      SplitPrefix(parts[0], Join(parts[1..], sep), sep);
      assert [parts[0]] + parts[1..] == parts;
    }
  }

  // ---------------------------------------------------------------------------
  // Order

  /** The UTF-16 code units of one character: itself below U+10000, else its
      surrogate pair. */
  function CodeUnits(c: char): (r: seq<int>)
    ensures 1 <= |r| <= 2
    ensures |r| == 1 <==> c as int < 0x10000
    ensures |r| == 2 ==> 0xD800 <= r[0] < 0xDC00 && 0xDC00 <= r[1] < 0xE000
  {
    if c as int < 0x10000 then [c as int]
    else [0xD800 + (c as int - 0x10000) / 0x400, 0xDC00 + (c as int - 0x10000) % 0x400]
  }

  /** The UTF-16 encoding of a string: the code units JavaScript compares. */
  function Utf16(s: string): seq<int> {
    if s == [] then [] else CodeUnits(s[0]) + Utf16(s[1..])
  }

  /** No character's code units begin another character's: equal encodings
      start with the same character. */
  lemma CodeUnitsPrefixFree(c: char, d: char, x: seq<int>, y: seq<int>)
    requires CodeUnits(c) + x == CodeUnits(d) + y
    ensures c == d && x == y
  {
    var u, v := CodeUnits(c), CodeUnits(d);
    assert (u + x)[0] == u[0] && (v + y)[0] == v[0];
    if |u| == 1 && |v| == 1 {
      assert c as int == d as int;
      assert x == (u + x)[1..] && y == (v + y)[1..];
    } else if |u| == 2 && |v| == 2 {
      assert (u + x)[1] == u[1] && (v + y)[1] == v[1];
      assert c as int == d as int;
      assert x == (u + x)[2..] && y == (v + y)[2..];
    } else {
      assert false;
    }
  }

  /** Different strings have different encodings. */
  lemma {:induction false} Utf16Injective(a: string, b: string)
    requires Utf16(a) == Utf16(b)
    ensures a == b
  {
    if a != [] && b != [] {
      CodeUnitsPrefixFree(a[0], b[0], Utf16(a[1..]), Utf16(b[1..]));
      Utf16Injective(a[1..], b[1..]);
      assert a == [a[0]] + a[1..] && b == [b[0]] + b[1..];
    }
  }

  /** Lexicographic order on code-unit sequences. */
  predicate UnitsLess(a: seq<int>, b: seq<int>)
    decreases |a|
  {
    if a == [] then b != []
    else if b == [] then false
    else a[0] < b[0] || (a[0] == b[0] && UnitsLess(a[1..], b[1..]))
  }

  /** The default order of `Array.prototype.sort()`: lexicographic order on
      UTF-16 code units. It also stands in for `localeCompare`. */
  predicate Less(a: string, b: string) {
    UnitsLess(Utf16(a), Utf16(b))
  }

  predicate LessEq(a: string, b: string) {
    a == b || Less(a, b)
  }

  /** A character above U+FFFF sorts before U+FF01, because its first code
      unit is a surrogate (below U+E000). */
  lemma SurrogatesSortFirst()
    ensures Less("\U{1F600}", "\U{FF01}") && !Less("\U{FF01}", "\U{1F600}")
  {
    assert Utf16("\U{1F600}") == [0xD83D, 0xDE00];
    assert Utf16("\U{FF01}") == [0xFF01];
  }

  lemma {:induction false} UnitsLessIrreflexive(a: seq<int>)
    ensures !UnitsLess(a, a)
  {
    if a != [] { UnitsLessIrreflexive(a[1..]); }
  }

  lemma {:induction false} UnitsLessTransitive(a: seq<int>, b: seq<int>, c: seq<int>)
    requires UnitsLess(a, b) && UnitsLess(b, c)
    ensures UnitsLess(a, c)
    decreases |a|
  {
    if a != [] && b != [] && c != [] && a[0] == b[0] && b[0] == c[0] {
      UnitsLessTransitive(a[1..], b[1..], c[1..]);
    }
  }

  lemma {:induction false} UnitsLessTotal(a: seq<int>, b: seq<int>)
    ensures a == b || UnitsLess(a, b) || UnitsLess(b, a)
    decreases |a|
  {
    if a != [] && b != [] && a[0] == b[0] {
      UnitsLessTotal(a[1..], b[1..]);
      if a[1..] == b[1..] {
        assert a == [a[0]] + a[1..] && b == [b[0]] + b[1..];
      }
    }
  }

  lemma LessIrreflexive(a: string)
    ensures !Less(a, a)
  {
    UnitsLessIrreflexive(Utf16(a));
  }

  lemma LessTransitive(a: string, b: string, c: string)
    requires Less(a, b) && Less(b, c)
    ensures Less(a, c)
  {
    UnitsLessTransitive(Utf16(a), Utf16(b), Utf16(c));
  }

  lemma LessTotal(a: string, b: string)
    ensures a == b || Less(a, b) || Less(b, a)
  {
    UnitsLessTotal(Utf16(a), Utf16(b));
    if Utf16(a) == Utf16(b) { Utf16Injective(a, b); }
  }

  lemma LessAsymmetric(a: string, b: string)
    requires Less(a, b)
    ensures !Less(b, a) && a != b
  {
    LessIrreflexive(a);
    if Less(b, a) { LessTransitive(a, b, a); }
  }

  lemma LessEqTransitive(a: string, b: string, c: string)
    requires LessEq(a, b) && LessEq(b, c)
    ensures LessEq(a, c)
  {
    if a != b && b != c { LessTransitive(a, b, c); }
  }

  predicate Sorted(s: seq<string>) {
    forall i, j :: 0 <= i < j < |s| ==> LessEq(s[i], s[j])
  }

  predicate StrictlySorted(s: seq<string>) {
    forall i, j :: 0 <= i < j < |s| ==> Less(s[i], s[j])
  }

  predicate NoDups<T(==)>(s: seq<T>) {
    forall i, j :: 0 <= i < j < |s| ==> s[i] != s[j]
  }

  lemma InConcat<T>(a: seq<T>, b: seq<T>, x: T)
    ensures x in a + b <==> x in a || x in b
  {
  }

  lemma TakeAll<T>(s: seq<T>)
    ensures s[..|s|] == s
  {
  }

  lemma ConcatEmpty<T>(a: seq<T>)
    ensures a + [] == a
  {
  }

  lemma ConcatLast<T>(a: seq<T>, b: seq<T>)
    requires b != []
    ensures a + b == (a + b[..|b| - 1]) + [b[|b| - 1]]
  {
    assert b == b[..|b| - 1] + [b[|b| - 1]];
  }

  /** Two equal elements at different places occur twice. */
  lemma TwoOccurrences<T>(a: seq<T>, i: int, j: int)
    requires 0 <= i < j < |a| && a[i] == a[j]
    ensures multiset(a)[a[i]] >= 2
  {
    var x := a[i];
    assert a == a[..i] + [x] + a[i + 1..j] + [x] + a[j + 1..];
  }

  /** A sequence is its first `n` elements followed by the rest. */
  lemma TakeDrop<T>(s: seq<T>, n: int)
    requires 0 <= n <= |s|
    ensures s == s[..n] + s[n..]
  {
  }

  /** A non-empty sequence is its prefix followed by its last element. */
  lemma LastSplit<T>(s: seq<T>)
    requires s != []
    ensures s == s[..|s| - 1] + [s[|s| - 1]]
    ensures multiset(s) == multiset(s[..|s| - 1]) + multiset{s[|s| - 1]}
  {
    assert s == s[..|s| - 1] + [s[|s| - 1]];
  }

  /** Some element of `s` satisfies `P` exactly when one of its prefix without
      the last element does, or the last element does. */
  lemma ExistsSplit<T>(s: seq<T>, P: T -> bool)
    requires s != []
    ensures var p := s[..|s| - 1];
      (exists j :: 0 <= j < |s| && P(s[j])) <==> (exists j :: 0 <= j < |p| && P(p[j])) || P(s[|s| - 1])
  {
    var p := s[..|s| - 1];
    if exists j :: 0 <= j < |s| && P(s[j]) {
      var j :| 0 <= j < |s| && P(s[j]);
      if j < |p| { assert p[j] == s[j]; }
    }
    if exists j :: 0 <= j < |p| && P(p[j]) {
      var j :| 0 <= j < |p| && P(p[j]);
      assert s[j] == p[j];
    }
  }

  /** Some element of `s` satisfies `P` exactly when its first element does,
      or one of the rest does. */
  lemma ExistsSplitFront<T>(s: seq<T>, P: T -> bool)
    requires s != []
    ensures var q := s[1..];
      (exists j :: 0 <= j < |s| && P(s[j])) <==> P(s[0]) || exists j :: 0 <= j < |q| && P(q[j])
  {
    var q := s[1..];
    if exists j :: 0 <= j < |s| && P(s[j]) {
      var j :| 0 <= j < |s| && P(s[j]);
      if j > 0 { assert q[j - 1] == s[j]; }
    }
    if exists j :: 0 <= j < |q| && P(q[j]) {
      var j :| 0 <= j < |q| && P(q[j]);
      assert s[j + 1] == q[j];
    }
  }

  /** Some member of `s` satisfies `P` exactly when a member of `s` without
      its last element does, or the last element does. */
  lemma ExistsInSplit<T>(s: seq<T>, P: T -> bool)
    requires s != []
    ensures (exists x :: x in s && P(x)) <==> (exists x :: x in s[..|s| - 1] && P(x)) || P(s[|s| - 1])
  {
    assert s == s[..|s| - 1] + [s[|s| - 1]];
  }

  /** `a` is `b` with some elements dropped, the rest in their order. */
  predicate IsSubsequence<T(==)>(a: seq<T>, b: seq<T>)
    decreases |b|
  {
    if a == [] then true
    else if b == [] then false
    else (a[0] == b[0] && IsSubsequence(a[1..], b[1..])) || IsSubsequence(a, b[1..])
  }

  /** Subsequences of two sequences concatenate to a subsequence of their
      concatenation. */
  lemma {:induction false} SubsequenceConcat<T>(a1: seq<T>, b1: seq<T>, a2: seq<T>, b2: seq<T>)
    requires IsSubsequence(a1, b1) && IsSubsequence(a2, b2)
    ensures IsSubsequence(a1 + a2, b1 + b2)
    decreases |b1|
  {
    if b1 == [] {
      assert a1 == [];
      assert a1 + a2 == a2 && b1 + b2 == b2;
    } else if a1 != [] && a1[0] == b1[0] && IsSubsequence(a1[1..], b1[1..]) {
      SubsequenceConcat(a1[1..], b1[1..], a2, b2);
      assert (a1 + a2)[1..] == a1[1..] + a2;
      assert (b1 + b2)[1..] == b1[1..] + b2;
    } else {
      assert IsSubsequence(a1, b1[1..]);
      SubsequenceConcat(a1, b1[1..], a2, b2);
      assert (b1 + b2)[1..] == b1[1..] + b2;
    }
  }

  /** `s.slice().reverse()`. */
  function Reverse<T>(s: seq<T>): (r: seq<T>)
    ensures |r| == |s|
    ensures forall i :: 0 <= i < |s| ==> r[i] == s[|s| - 1 - i]
  {
    if s == [] then [] else Reverse(s[1..]) + [s[0]]
  }

  lemma {:induction false} ReverseReverse<T>(s: seq<T>)
    ensures Reverse(Reverse(s)) == s
  {
    var r := Reverse(s);
    assert |Reverse(r)| == |s|;
    forall i | 0 <= i < |s| ensures Reverse(r)[i] == s[i] {
      assert Reverse(r)[i] == r[|s| - 1 - i];
    }
  }

  /** `s.slice(0, n)` for a non-negative `n`. */
  function Take<T>(s: seq<T>, n: int): (r: seq<T>)
    requires n >= 0
    ensures |r| <= n && |r| <= |s| && r == s[..|r|]
    ensures |r| == if n < |s| then n else |s|
  {
    if n < |s| then s[..n] else s
  }

  // ---------------------------------------------------------------------------
  // Set and sort idioms

  /** `Array.from(new Set(xs))`: the first occurrence of every element, in order. */
  function Distinct<T(==)>(xs: seq<T>): (r: seq<T>)
    ensures NoDups(r)
    ensures forall i :: 0 <= i < |r| ==> r[i] in xs
    ensures forall i :: 0 <= i < |xs| ==> xs[i] in r
    ensures |r| <= |xs|
  {
    if xs == [] then []
    else
      var d := Distinct(xs[..|xs| - 1]);
      assert forall i :: 0 <= i < |xs| - 1 ==> xs[i] == xs[..|xs| - 1][i];
      if xs[|xs| - 1] in d then d else d + [xs[|xs| - 1]]
  }

  /** Insert `x` into the sorted `s` before every element not below it. */
  function Insert(x: string, s: seq<string>): (r: seq<string>)
    requires Sorted(s)
    ensures Sorted(r)
    ensures multiset(r) == multiset(s) + multiset{x}
    ensures forall k :: 0 <= k < |r| ==> r[k] == x || r[k] in s
  {
    if s == [] then [x]
    else if LessEq(x, s[0]) then
      InsertFront(x, s);
      [x] + s
    else
      LessTotal(x, s[0]);
      var t := Insert(x, s[1..]);
      assert s == [s[0]] + s[1..];
      InsertBehind(x, s, t);
      [s[0]] + t
  }

  lemma InsertFront(x: string, s: seq<string>)
    requires Sorted(s) && s != [] && LessEq(x, s[0])
    ensures Sorted([x] + s)
  {
    forall i, j | 0 <= i < j < |s| + 1 ensures LessEq(([x] + s)[i], ([x] + s)[j]) {
      if i == 0 { LessEqTransitive(x, s[0], s[j - 1]); }
    }
  }

  lemma InsertBehind(x: string, s: seq<string>, t: seq<string>)
    requires Sorted(s) && s != [] && Less(s[0], x) && Sorted(t)
    requires forall k :: 0 <= k < |t| ==> t[k] == x || t[k] in s[1..]
    ensures Sorted([s[0]] + t)
  {
    forall k | 0 <= k < |t| ensures LessEq(s[0], t[k]) {
      if t[k] != x {
        var j :| 0 <= j < |s[1..]| && s[1..][j] == t[k];
        assert s[1 + j] == t[k];
      }
    }
  }

  /** `Array.prototype.sort()` on strings: sorted and a permutation of the input. */
  function SortStrings(xs: seq<string>): (r: seq<string>)
    ensures Sorted(r)
    ensures multiset(r) == multiset(xs)
  {
    if xs == [] then []
    else
      assert xs == [xs[0]] + xs[1..];
      Insert(xs[0], SortStrings(xs[1..]))
  }

  lemma {:induction false} NoDupsFromMultiset<T>(a: seq<T>, b: seq<T>)
    requires multiset(a) == multiset(b) && NoDups(b)
    ensures NoDups(a)
  {
    forall i, j | 0 <= i < j < |a| ensures a[i] != a[j] {
      if a[i] == a[j] {
        TwoOccurrences(a, i, j);
        CountAtMostOne(b, a[i]);
      }
    }
  }

  lemma {:induction false} CountAtMostOne<T>(b: seq<T>, x: T)
    requires NoDups(b)
    ensures multiset(b)[x] <= 1
  {
    if b != [] {
      var t := b[1..];
      assert b == [b[0]] + t;
      assert NoDups(t) by {
        forall i, j | 0 <= i < j < |t| ensures t[i] != t[j] { assert t[i] == b[i + 1] && t[j] == b[j + 1]; }
      }
      CountAtMostOne(t, x);
      if b[0] == x {
        assert x !in t by {
          forall k | 0 <= k < |t| ensures t[k] != x { assert t[k] == b[k + 1]; }
        }
      }
    }
  }

  /** `Array.from(new Set(xs)).sort()`. */
  function SortedUnique(xs: seq<string>): (r: seq<string>)
  {
    SortStrings(Distinct(xs))
  }

  /** The sorted distinct values are strictly ascending, hold no duplicate,
      and are exactly the values of the input. */
  lemma SortedUniqueSpec(xs: seq<string>)
    ensures StrictlySorted(SortedUnique(xs))
    ensures NoDups(SortedUnique(xs))
    ensures forall x :: x in SortedUnique(xs) <==> x in xs
  {
    var d := Distinct(xs);
    var r := SortStrings(d);
    NoDupsFromMultiset(r, d);
    forall x ensures x in r <==> x in d {
      assert x in r <==> x in multiset(r);
      assert x in d <==> x in multiset(d);
    }
  }
}
