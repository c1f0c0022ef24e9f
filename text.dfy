/**
  The string operations the program relies on: `str.split`, `str.join`,
  Python's ordering of strings (code point by code point, a proper prefix
  first) and the stable `sorted`.
 */
module Text {

  /** `sep.join(parts)`. */
  function Join(sep: string, parts: seq<string>): string {
    if parts == [] then ""
    else if |parts| == 1 then parts[0]
    else parts[0] + sep + Join(sep, parts[1..])
  }

  /**
    `s.split(sep)` for a one-character separator: the separator-free pieces
    which, joined back with the separator, give `s`.
   */
  function Split(s: string, sep: char): (parts: seq<string>)
    ensures |parts| >= 1
    ensures forall i :: 0 <= i < |parts| ==> sep !in parts[i]
    ensures Join([sep], parts) == s
  {
    if s == [] then [""]
    else
      var rest := Split(s[1..], sep);
      if s[0] == sep then
        var parts := [""] + rest;
        assert parts[1..] == rest;
        assert s == [sep] + s[1..];
        parts
      else
        var parts := [[s[0]] + rest[0]] + rest[1..];
        assert s == [s[0]] + s[1..];
        assert Join([sep], parts) == s by {
          if |rest| > 1 {
            assert parts[1..] == rest[1..];
            assert Join([sep], rest) == rest[0] + [sep] + Join([sep], rest[1..]);
          }
        }
        parts
  }

  /** Splitting text that starts with a separator-free piece `w`: `w` opens the first part. */
  lemma {:induction false} SplitFree(w: string, s: string, sep: char)
    requires sep !in w
    ensures Split(w + s, sep) == [w + Split(s, sep)[0]] + Split(s, sep)[1..]
    decreases |w|
  {
    var parts := Split(s, sep);
    if w == [] {
      assert w + s == s && w + parts[0] == parts[0];
      assert parts == [parts[0]] + parts[1..];
    } else {
      SplitFree(w[1..], s, sep);
      var rest := Split(w[1..] + s, sep);
      assert (w + s)[0] == w[0] && (w + s)[1..] == w[1..] + s;
      assert rest[0] == w[1..] + parts[0] && rest[1..] == parts[1..];
      assert [w[0]] + (w[1..] + parts[0]) == w + parts[0];
    }
  }

  /**
    `sep.join(parts).split(sep)` gives back the parts when none of them
    contains the separator: `Split` and `Join` are inverse.
   */
  lemma {:induction false} JoinSplit(parts: seq<string>, sep: char)
    requires |parts| >= 1
    requires forall i :: 0 <= i < |parts| ==> sep !in parts[i]
    ensures Split(Join([sep], parts), sep) == parts
  {
    var p := parts[0];
    if |parts| == 1 {
      SplitFree(p, "", sep);
      assert p + "" == p && p + [""][0] == p;
    } else {
      var rest := parts[1..];
      forall i | 0 <= i < |rest| ensures sep !in rest[i] { assert rest[i] == parts[i + 1]; }
      JoinSplit(rest, sep);
      var j := Join([sep], rest);
      assert Join([sep], parts) == p + ([sep] + j);
      SplitFree(p, [sep] + j, sep);
      assert ([sep] + j)[0] == sep && ([sep] + j)[1..] == j;
      var t := Split([sep] + j, sep);
      assert t == [""] + rest;
      assert p + t[0] == p;
      assert t[1..] == rest;
      assert parts == [p] + rest;
    }
  }

  /** Python's `a < b` on strings. */
  predicate Less(a: string, b: string) {
    if a == [] then b != []
    else if b == [] then false
    else if a[0] != b[0] then a[0] < b[0]
    else Less(a[1..], b[1..])
  }

  lemma {:induction false} LessIrreflexive(a: string)
    ensures !Less(a, a)
  {
    if a != [] { LessIrreflexive(a[1..]); }
  }

  lemma {:induction false} LessAsymmetric(a: string, b: string)
    ensures Less(a, b) ==> !Less(b, a)
  {
    if a != [] && b != [] && a[0] == b[0] { LessAsymmetric(a[1..], b[1..]); }
  }

  lemma {:induction false} LessTransitive(a: string, b: string, c: string)
    ensures Less(a, b) && Less(b, c) ==> Less(a, c)
  {
    if a != [] && b != [] && c != [] && a[0] == b[0] && b[0] == c[0] {
      LessTransitive(a[1..], b[1..], c[1..]);
    }
  }

  lemma {:induction false} LessTotal(a: string, b: string)
    ensures a != b ==> Less(a, b) || Less(b, a)
  {
    if a != [] && b != [] && a[0] == b[0] {
      LessTotal(a[1..], b[1..]);
      if a[1..] == b[1..] {
        assert a == [a[0]] + a[1..] && b == [b[0]] + b[1..];
      }
    }
  }

  /**
    The lexicographic order spelled out: `a` is a proper prefix of `b`, or
    at the first position where they differ `a` has the smaller code point.
   */
  ghost predicate LexBelow(a: string, b: string) {
    || (|a| < |b| && a == b[..|a|])
    || (exists k :: 0 <= k < |a| && k < |b| && a[..k] == b[..k] && a[k] < b[k])
  }

  lemma LexBelowTail(a: string, b: string)
    requires a != [] && b != [] && a[0] == b[0] && LexBelow(a[1..], b[1..])
    ensures LexBelow(a, b)
  {
    var a', b' := a[1..], b[1..];
    assert a == [a[0]] + a' && b == [b[0]] + b';
    if |a'| < |b'| && a' == b'[..|a'|] {
      assert b[..|a|] == [b[0]] + b'[..|a'|];
    } else {
      var k :| 0 <= k < |a'| && k < |b'| && a'[..k] == b'[..k] && a'[k] < b'[k];
      assert a[..k + 1] == [a[0]] + a'[..k] && b[..k + 1] == [b[0]] + b'[..k];
      assert a[k + 1] == a'[k] && b[k + 1] == b'[k];
    }
  }

  lemma LexBelowHead(a: string, b: string)
    requires a != [] && b != [] && a[0] == b[0] && LexBelow(a, b)
    ensures LexBelow(a[1..], b[1..])
  {
    var a', b' := a[1..], b[1..];
    if |a| < |b| && a == b[..|a|] {
      assert a' == b[..|a|][1..] && b[..|a|][1..] == b'[..|a'|];
    } else {
      var k :| 0 <= k < |a| && k < |b| && a[..k] == b[..k] && a[k] < b[k];
      assert k > 0;
      assert a'[..k - 1] == a[..k][1..] && b'[..k - 1] == b[..k][1..];
      assert a'[k - 1] == a[k] && b'[k - 1] == b[k];
    }
  }

  /** `Less` is the lexicographic order on code points. */
  lemma {:induction false} LessMeaning(a: string, b: string)
    ensures Less(a, b) <==> LexBelow(a, b)
  {
    if a == [] || b == [] {
    } else if a[0] != b[0] {
      if a[0] < b[0] {
        assert a[..0] == b[..0];
      }
    } else {
      LessMeaning(a[1..], b[1..]);
      if LexBelow(a[1..], b[1..]) { LexBelowTail(a, b); }
      if LexBelow(a, b) { LexBelowHead(a, b); }
    }
  }

  /** `!Less` is a total preorder on strings, and only equal strings are equivalent. */
  lemma NotLessBoth(a: string, b: string)
    requires !Less(a, b) && !Less(b, a)
    ensures a == b
  {
    LessTotal(a, b);
  }

  /** Not being smaller is transitive. */
  lemma NotLessTransitive(a: string, b: string, c: string)
    requires !Less(b, a) && !Less(c, b)
    ensures !Less(c, a)
  {
    LessTotal(a, b);
    LessTotal(b, c);
    if a != b && b != c { LessTransitive(a, b, c); LessAsymmetric(a, c); }
  }

  /** Neither element comes after a later one by its key. */
  ghost predicate SortedBy<T>(s: seq<T>, key: T -> string) {
    forall i, j :: 0 <= i < j < |s| ==> !Less(key(s[j]), key(s[i]))
  }

  /** Puts `x` before the first element whose key is not smaller than its own. */
  function Insert<T>(x: T, s: seq<T>, key: T -> string): (r: seq<T>)
    ensures multiset(r) == multiset(s) + multiset{x}
    ensures SortedBy(s, key) ==> SortedBy(r, key)
  {
    if s == [] then [x]
    else if !Less(key(s[0]), key(x)) then
      var r := [x] + s;
      assert SortedBy(s, key) ==> SortedBy(r, key) by {
        if SortedBy(s, key) {
          forall j | 0 < j < |r| ensures !Less(key(r[j]), key(x)) {
            assert r[j] == s[j - 1];
            if j > 1 { NotLessTransitive(key(x), key(s[0]), key(s[j - 1])); }
          }
        }
      }
      r
    else
      var rest := Insert(x, s[1..], key);
      var r := [s[0]] + rest;
      assert s == [s[0]] + s[1..];
      assert SortedBy(s, key) ==> SortedBy(r, key) by {
        if SortedBy(s, key) {
          assert SortedBy(s[1..], key);
          forall j | 0 < j < |r| ensures !Less(key(r[j]), key(s[0])) {
            assert r[j] in multiset(rest);
            if r[j] == x {
              LessAsymmetric(key(s[0]), key(x));
            } else {
              assert r[j] in s[1..];
            }
          }
        }
      }
      r
  }

  /** Python's `sorted(s, key=key)`: stable insertion sort. */
  function SortBy<T>(s: seq<T>, key: T -> string): (r: seq<T>)
    ensures multiset(r) == multiset(s)
    ensures SortedBy(r, key)
  {
    if s == [] then []
    else
      assert s == [s[0]] + s[1..];
      Insert(s[0], SortBy(s[1..], key), key)
  }

  lemma MultisetTail<T>(s: seq<T>)
    requires s != []
    ensures multiset(s[1..]) == multiset(s) - multiset{s[0]}
  {
    assert s == [s[0]] + s[1..];
  }

  lemma SortedHeads<T>(a: seq<T>, b: seq<T>, key: T -> string)
    requires a != [] && multiset(a) == multiset(b)
    requires SortedBy(a, key) && SortedBy(b, key)
    requires forall x, y :: x in a && y in a && key(x) == key(y) ==> x == y
    ensures b != [] && a[0] == b[0]
  {
    assert |b| == |multiset(b)| == |a|;
    assert b[0] in multiset(a) && a[0] in multiset(b);
    var i :| 0 <= i < |a| && a[i] == b[0];
    var j :| 0 <= j < |b| && b[j] == a[0];
    assert !Less(key(b[0]), key(a[0])) by { if i == 0 { LessIrreflexive(key(a[0])); } }
    assert !Less(key(a[0]), key(b[0])) by { if j == 0 { LessIrreflexive(key(a[0])); } }
    NotLessBoth(key(a[0]), key(b[0]));
  }

  lemma SortedTail<T>(a: seq<T>, key: T -> string)
    requires a != [] && SortedBy(a, key)
    ensures SortedBy(a[1..], key)
  {
    forall i, j | 0 <= i < j < |a[1..]| ensures !Less(key(a[1..][j]), key(a[1..][i])) {
      assert a[1..][i] == a[i + 1] && a[1..][j] == a[j + 1];
    }
  }

  lemma ConsEqual<T>(a: seq<T>, b: seq<T>)
    requires a != [] && b != [] && a[0] == b[0] && a[1..] == b[1..]
    ensures a == b
  {
    assert a == [a[0]] + a[1..] && b == [b[0]] + b[1..];
  }

  /**
    Two sorted sequences with the same elements are equal, when no two
    different elements share a key: sorting depends only on the multiset.
   */
  lemma {:induction false} SortedUnique<T>(a: seq<T>, b: seq<T>, key: T -> string)
    requires multiset(a) == multiset(b)
    requires SortedBy(a, key) && SortedBy(b, key)
    requires forall x, y :: x in a && y in a && key(x) == key(y) ==> x == y
    ensures a == b
    decreases |a|
  {
    if a == [] {
      assert |b| == |multiset(b)| == 0;
    } else {
      SortedHeads(a, b, key);
      MultisetTail(a);
      MultisetTail(b);
      SortedTail(a, key);
      SortedTail(b, key);
      assert forall x :: x in a[1..] ==> x in a;
      SortedUnique(a[1..], b[1..], key);
      ConsEqual(a, b);
    }
  }

  /** The identity, the sort key of `sorted` without `key=`. */
  function Id(s: string): string {
    s
  }

  /** Python's `str.isspace()` for one character: the Unicode white space and separators. */
  predicate IsSpace(c: char) {
    var n := c as int;
    || 9 <= n <= 13 || 28 <= n <= 32 || n == 0x85 || n == 0xA0 || n == 0x1680
    || 0x2000 <= n <= 0x200A || n == 0x2028 || n == 0x2029 || n == 0x202F
    || n == 0x205F || n == 0x3000
  }

  /** The number of white-space characters `s` starts with. */
  function LeadingSpaces(s: string): (n: nat)
    ensures n <= |s|
    ensures forall k :: 0 <= k < n ==> IsSpace(s[k])
    ensures n == |s| || !IsSpace(s[n])
  {
    if s == [] || !IsSpace(s[0]) then 0
    else
      var n := LeadingSpaces(s[1..]);
      assert forall k :: 1 <= k < n + 1 ==> s[k] == s[1..][k - 1];
      n + 1
  }

  /** Where the white space `s` ends with begins. */
  function TrailingStart(s: string): (m: nat)
    ensures m <= |s|
    ensures forall k :: m <= k < |s| ==> IsSpace(s[k])
    ensures m == 0 || !IsSpace(s[m - 1])
  {
    if s == [] || !IsSpace(s[|s| - 1]) then |s|
    else
      var m := TrailingStart(s[..|s| - 1]);
      assert forall k :: m <= k < |s| - 1 ==> s[k] == s[..|s| - 1][k];
      m
  }

  /** `s.strip()`: `s` without its leading and trailing white space. */
  function Strip(s: string): (r: string)
    ensures |r| <= |s|
  {
    var i := LeadingSpaces(s);
    var m := TrailingStart(s);
    if m <= i then [] else s[i..m]
  }

  /**
    What `strip` keeps: a slice of `s` with only white space cut off on
    either side, starting and ending with other characters; it is empty
    exactly when `s` is all white space.
   */
  lemma StripCorrect(s: string)
    ensures var r := Strip(s);
            && (exists i, j :: 0 <= i <= j <= |s| && r == s[i..j]
                             && (forall k :: 0 <= k < i ==> IsSpace(s[k]))
                             && (forall k :: j <= k < |s| ==> IsSpace(s[k])))
            && (r != [] ==> !IsSpace(r[0]) && !IsSpace(r[|r| - 1]))
            && (r == [] <==> forall k :: 0 <= k < |s| ==> IsSpace(s[k]))
  {
    var i := LeadingSpaces(s);
    var m := TrailingStart(s);
    if m <= i {
      assert s[i..i] == [];
    } else {
      assert !IsSpace(s[i]);
      assert Strip(s) == s[i..m];
    }
  }
}
