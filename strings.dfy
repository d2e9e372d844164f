/** String helpers shared by the screens: the JavaScript `split`, `join`,
    `trim`, `toLowerCase`, `includes` and number-to-text conversions the
    components rely on, and the lexicographic order that stands for both
    the string `<` operator and `localeCompare`. */
module Strings {

  /** `String.prototype.split(sep)` for a one-character separator: the
      pieces between separators, never an empty list ("" splits to [""]). */
  function Split(s: string, sep: char): (parts: seq<string>)
    ensures |parts| >= 1
    ensures forall k :: 0 <= k < |parts| ==> sep !in parts[k]
    decreases |s|
  {
    if |s| == 0 then [""]
    else
      var rest := Split(s[1..], sep);
      if s[0] == sep then [""] + rest
      else [[s[0]] + rest[0]] + rest[1..]
  }

  /** `Array.prototype.join(sep)` over strings: the first piece, then the
      separator and the rest whenever there is more than one piece. */
  function Join(parts: seq<string>, sep: char): (r: string)
    ensures |parts| == 0 ==> r == ""
    ensures |parts| > 0 ==> IsPrefix(parts[0], r)
    ensures |parts| > 1 ==> |r| > |parts[0]| && r[|parts[0]|] == sep
    decreases |parts|
  {
    if |parts| == 0 then ""
    else if |parts| == 1 then parts[0]
    else parts[0] + [sep] + Join(parts[1..], sep)
  }

  /** Pieces without the separator are joined by exactly one separator
      fewer than there are pieces. */
  lemma {:induction false} JoinCountsSeparators(parts: seq<string>, sep: char)
    requires |parts| > 0
    requires forall k :: 0 <= k < |parts| ==> sep !in parts[k]
    ensures multiset(Join(parts, sep))[sep] == |parts| - 1
    decreases |parts|
  {
    if |parts| > 1 {
      JoinCountsSeparators(parts[1..], sep);
      assert sep !in parts[0];
      assert multiset(parts[0])[sep] == 0;
      assert Join(parts, sep) == parts[0] + [sep] + Join(parts[1..], sep);
    } else {
      assert sep !in parts[0];
    }
  }

  /** Joining the pieces of a split gives back the original text. */
  lemma {:induction false} JoinSplit(s: string, sep: char)
    ensures Join(Split(s, sep), sep) == s
    decreases |s|
  {
    if |s| > 0 {
      JoinSplit(s[1..], sep);
      var rest := Split(s[1..], sep);
      if s[0] == sep {
        assert Split(s, sep) == [""] + rest;
        assert ([""] + rest)[1..] == rest;
      } else {
        var parts := Split(s, sep);
        assert parts[1..] == rest[1..];
        if |rest| > 1 {
          assert Join(rest, sep) == rest[0] + [sep] + Join(rest[1..], sep);
        }
      }
    }
  }

  /** Splitting a separator-free prefix: it is glued to the first piece. */
  lemma {:induction false} SplitPrefix(x: string, t: string, sep: char)
    requires sep !in x
    ensures Split(x + t, sep) == [x + Split(t, sep)[0]] + Split(t, sep)[1..]
    decreases |x|
  {
    if |x| > 0 {
      SplitPrefix(x[1..], t, sep);
      var first, more := Split(t, sep)[0], Split(t, sep)[1..];
      var rest := Split((x + t)[1..], sep);
      assert (x + t)[1..] == x[1..] + t;
      assert rest == [x[1..] + first] + more;
      assert rest[0] == x[1..] + first && rest[1..] == more;
      assert x[0] in x && (x + t)[0] == x[0];
      assert Split(x + t, sep) == [[x[0]] + rest[0]] + rest[1..];
      assert [x[0]] + (x[1..] + first) == x + first;
    } else {
      assert x + t == t;
      assert x + Split(t, sep)[0] == Split(t, sep)[0];
      assert Split(t, sep) == [Split(t, sep)[0]] + Split(t, sep)[1..];
    }
  }

  /** Splitting a join of separator-free pieces gives back the pieces. */
  lemma {:induction false} SplitJoin(parts: seq<string>, sep: char)
    requires |parts| >= 1
    requires forall k :: 0 <= k < |parts| ==> sep !in parts[k]
    ensures Split(Join(parts, sep), sep) == parts
    decreases |parts|
  {
    if |parts| == 1 {
      SplitPrefix(parts[0], "", sep);
      assert Join(parts, sep) == parts[0] + "";
      assert Split("", sep) == [""];
      assert parts == [parts[0]];
    } else {
      var tail := Join(parts[1..], sep);
      SplitJoin(parts[1..], sep);
      assert Join(parts, sep) == parts[0] + ([sep] + tail);
      SplitPrefix(parts[0], [sep] + tail, sep);
      assert ([sep] + tail)[1..] == tail;
      var s := Split([sep] + tail, sep);
      assert s == [""] + parts[1..];
      assert s[0] == "" && s[1..] == parts[1..];
      assert parts[0] + "" == parts[0];
      assert parts == [parts[0]] + parts[1..];
    }
  }

  /** Every piece of a join occurs in the joined text. */
  lemma {:induction false} JoinedPieceIsSubstring(parts: seq<string>, sep: char, k: nat)
    requires k < |parts|
    ensures IsSubstring(parts[k], Join(parts, sep))
    decreases |parts|
  {
    if |parts| == 1 {
      PrefixIsSubstring(parts[0], "");
      assert parts[0] + "" == parts[0];
    } else if k == 0 {
      PrefixIsSubstring(parts[0], [sep] + Join(parts[1..], sep));
      assert Join(parts, sep) == parts[0] + ([sep] + Join(parts[1..], sep));
    } else {
      JoinedPieceIsSubstring(parts[1..], sep, k - 1);
      SuffixKeepsSubstring(parts[k], parts[0] + [sep], Join(parts[1..], sep));
    }
  }

  // ---------------------------------------------------------------------
  // `includes` on strings

  /** `s.startsWith(p)`. */
  predicate IsPrefix(p: string, s: string)
  {
    |p| <= |s| && s[..|p|] == p
  }

  /** `s.includes(p)`: `p` occurs in `s` at some position (the empty string
      occurs everywhere). */
  predicate IsSubstring(p: string, s: string)
    decreases |s|
  {
    IsPrefix(p, s) || (|s| > 0 && IsSubstring(p, s[1..]))
  }

  /** `p` occurs in `s` starting at index `i`. */
  predicate OccursAt(p: string, s: string, i: int)
  {
    0 <= i <= |s| - |p| && s[i..i + |p|] == p
  }

  /** The search above finds exactly the strings that occur somewhere. */
  lemma {:induction false} IsSubstringAt(p: string, s: string)
    ensures IsSubstring(p, s) <==> exists i :: OccursAt(p, s, i)
    decreases |s|
  {
    if |s| > 0 {
      IsSubstringAt(p, s[1..]);
      if IsSubstring(p, s[1..]) {
        var i :| OccursAt(p, s[1..], i);
        assert s[i + 1..i + 1 + |p|] == p;
        assert OccursAt(p, s, i + 1);
      }
      if IsPrefix(p, s) {
        assert OccursAt(p, s, 0);
      }
      if exists i :: OccursAt(p, s, i) {
        var i :| OccursAt(p, s, i);
        if i > 0 {
          assert s[1..][i - 1..i - 1 + |p|] == p;
          assert OccursAt(p, s[1..], i - 1);
        }
      }
    } else {
      if exists i :: OccursAt(p, s, i) {
        var i :| OccursAt(p, s, i);
        assert i == 0;
      }
      if IsPrefix(p, s) {
        assert OccursAt(p, s, 0);
      }
    }
  }

  lemma PrefixIsSubstring(p: string, t: string)
    ensures IsSubstring(p, p + t)
  {
    assert (p + t)[..|p|] == p;
  }

  lemma {:induction false} SuffixKeepsSubstring(p: string, front: string, s: string)
    requires IsSubstring(p, s)
    ensures IsSubstring(p, front + s)
    decreases |front|
  {
    if |front| > 0 {
      SuffixKeepsSubstring(p, front[1..], s);
      assert (front + s)[1..] == front[1..] + s;
    } else {
      assert front + s == s;
    }
  }

  /** Occurrence is transitive: a substring of a substring of `c` is a
      substring of `c`. */
  lemma SubstringTransitive(a: string, b: string, c: string)
    requires IsSubstring(a, b) && IsSubstring(b, c)
    ensures IsSubstring(a, c)
  {
    IsSubstringAt(a, b);
    IsSubstringAt(b, c);
    var i :| OccursAt(a, b, i);
    var j :| OccursAt(b, c, j);
    forall k | 0 <= k < |a|
      ensures c[j + i + k] == a[k]
    {
      assert b[i..i + |a|][k] == a[k];
      assert c[j..j + |b|][i + k] == b[i + k];
    }
    assert OccursAt(a, c, j + i);
    IsSubstringAt(a, c);
  }

  /** A string occurs in the text it is cut out of. */
  lemma SliceIsSubstring(s: string, i: nat, j: nat)
    requires i <= j <= |s|
    ensures IsSubstring(s[i..j], s)
  {
    assert OccursAt(s[i..j], s, i);
    IsSubstringAt(s[i..j], s);
  }

  // ---------------------------------------------------------------------
  // `trim`

  /** The characters `String.prototype.trim` removes: ECMAScript
      WhiteSpace (tab, vertical tab, form feed, space, no-break space,
      byte-order mark and the other Zs characters) and LineTerminator. */
  predicate IsSpace(c: char)
  {
    c == '\t' || c == '\n' || c == '\U{B}' || c == '\U{C}' || c == '\r' ||
    c == ' ' || c == '\U{A0}' || c == '\U{1680}' || ('\U{2000}' <= c <= '\U{200A}') ||
    c == '\U{2028}' || c == '\U{2029}' || c == '\U{202F}' || c == '\U{205F}' ||
    c == '\U{3000}' || c == '\U{FEFF}'
  }

  /** No white space at either end. */
  predicate Trimmed(s: string)
  {
    |s| == 0 || (!IsSpace(s[0]) && !IsSpace(s[|s| - 1]))
  }

  predicate AllSpace(s: string)
  {
    forall k :: 0 <= k < |s| ==> IsSpace(s[k])
  }

  /** How many white-space characters `s` starts with. */
  function LeadingSpaces(s: string): (n: nat)
    ensures n <= |s| && AllSpace(s[..n])
    ensures n == |s| || !IsSpace(s[n])
    decreases |s|
  {
    if |s| > 0 && IsSpace(s[0]) then 1 + LeadingSpaces(s[1..]) else 0
  }

  /** How many white-space characters `s` ends with. */
  function TrailingSpaces(s: string): (n: nat)
    ensures n <= |s| && AllSpace(s[|s| - n..])
    ensures n == |s| || !IsSpace(s[|s| - 1 - n])
    decreases |s|
  {
    if |s| > 0 && IsSpace(s[|s| - 1]) then
      var n := TrailingSpaces(s[..|s| - 1]);
      assert s[|s| - (n + 1)..] == s[..|s| - 1][|s| - 1 - n..] + [s[|s| - 1]];
      n + 1
    else 0
  }

  /** `String.prototype.trim`: `s` is white space, then the result, then
      white space; the result has none at either end, and a string that
      is already trimmed comes back unchanged. */
  function Trim(s: string): (r: string)
    ensures Trimmed(r)
    ensures Trimmed(s) ==> r == s
    ensures LeadingSpaces(s) + |r| <= |s|
    ensures s == s[..LeadingSpaces(s)] + r + s[LeadingSpaces(s) + |r|..]
    ensures AllSpace(s[LeadingSpaces(s) + |r|..])
  {
    var i := LeadingSpaces(s);
    var t := s[i..];
    var j := TrailingSpaces(t);
    assert j < |t| || |t| == 0;
    var r := t[..|t| - j];
    assert Trimmed(r) by {
      if |r| > 0 {
        assert r[0] == t[0] && r[|r| - 1] == t[|t| - 1 - j];
      }
    }
    assert Trimmed(s) ==> r == s by {
      if Trimmed(s) && |s| > 0 {
        assert i == 0 && t == s;
      }
    }
    assert s[i + |r|..] == t[|t| - j..];
    assert s == s[..i] + r + s[i + |r|..];
    r
  }

  /** The trimmed text occurs in the text it was trimmed from. */
  lemma TrimIsSubstring(s: string)
    ensures IsSubstring(Trim(s), s)
  {
    var r := Trim(s);
    var lead := LeadingSpaces(s);
    assert s[lead..lead + |r|] == r by {
      assert s == s[..lead] + r + s[lead + |r|..];
    }
    SliceIsSubstring(s, lead, lead + |r|);
  }

  // ---------------------------------------------------------------------
  // Case and order

  /** `toLowerCase` on one character: an ASCII capital becomes its small
      letter, 32 code points further on; every other character stays. */
  function LowerChar(c: char): (d: char)
    ensures 'A' <= c <= 'Z' ==> 'a' <= d <= 'z' && d as int == c as int + 32
    ensures !('A' <= c <= 'Z') ==> d == c
    ensures !('A' <= d <= 'Z')
  {
    if 'A' <= c <= 'Z' then (c as int + 32) as char else c
  }

  /** Two characters are the same letter up to ASCII case. */
  predicate SameIgnoringCase(c: char, e: char)
  {
    c == e || ('A' <= c <= 'Z' && e as int == c as int + 32) || ('A' <= e <= 'Z' && c as int == e as int + 32)
  }

  /** Lower-casing makes two characters equal exactly when they are the
      same letter up to case. */
  lemma LowerCharEqual(c: char, e: char)
    ensures LowerChar(c) == LowerChar(e) <==> SameIgnoringCase(c, e)
  {
  }

  /** `String.prototype.toLowerCase`, for the ASCII letters: character by
      character, so no capital letter is left. */
  function Lower(s: string): (r: string)
    ensures |r| == |s|
    ensures forall k :: 0 <= k < |s| ==> r[k] == LowerChar(s[k])
    ensures forall k :: 0 <= k < |r| ==> !('A' <= r[k] <= 'Z')
  {
    seq(|s|, k requires 0 <= k < |s| => LowerChar(s[k]))
  }

  /** Two strings lower-case to the same text exactly when they have the
      same length and agree position by position up to case. */
  lemma LowerEqual(s: string, t: string)
    ensures Lower(s) == Lower(t) <==>
            |s| == |t| && forall k :: 0 <= k < |s| ==> SameIgnoringCase(s[k], t[k])
  {
    if |s| == |t| {
      forall k | 0 <= k < |s|
        ensures LowerChar(s[k]) == LowerChar(t[k]) <==> SameIgnoringCase(s[k], t[k])
      {
        LowerCharEqual(s[k], t[k]);
      }
      if forall k :: 0 <= k < |s| ==> SameIgnoringCase(s[k], t[k]) {
        assert forall k :: 0 <= k < |s| ==> Lower(s)[k] == Lower(t)[k];
      }
      if Lower(s) == Lower(t) {
        forall k | 0 <= k < |s|
          ensures SameIgnoringCase(s[k], t[k])
        {
          assert Lower(s)[k] == Lower(t)[k];
        }
      }
    }
  }

  /** Strict lexicographic order by code point. It stands in for
      JavaScript's `<` on two strings, which compares UTF-16 code units
      (the two agree inside the Basic Multilingual Plane), and for the order
      `localeCompare` is taken to follow here. */
  predicate LexLess(x: string, y: string)
    decreases |x|
  {
    |y| > 0 &&
    (|x| == 0 || x[0] < y[0] || (x[0] == y[0] && LexLess(x[1..], y[1..])))
  }

  lemma {:induction false} LexLessIrreflexive(x: string)
    ensures !LexLess(x, x)
    decreases |x|
  {
    if |x| > 0 {
      LexLessIrreflexive(x[1..]);
    }
  }

  lemma {:induction false} LexLessTransitive(x: string, y: string, z: string)
    requires LexLess(x, y) && LexLess(y, z)
    ensures LexLess(x, z)
    decreases |x|
  {
    if |x| > 0 && x[0] == y[0] && y[0] == z[0] {
      LexLessTransitive(x[1..], y[1..], z[1..]);
    }
  }

  /** Two different strings are always ordered one way or the other. */
  lemma {:induction false} LexLessTrichotomy(x: string, y: string)
    ensures x == y || LexLess(x, y) || LexLess(y, x)
    decreases |x|
  {
    if |x| > 0 && |y| > 0 && x[0] == y[0] {
      LexLessTrichotomy(x[1..], y[1..]);
      if x[1..] == y[1..] {
        assert x == [x[0]] + x[1..] && y == [y[0]] + y[1..];
      }
    }
  }

  lemma LexLessAsymmetric(x: string, y: string)
    requires LexLess(x, y)
    ensures !LexLess(y, x)
  {
    if LexLess(y, x) {
      LexLessTransitive(x, y, x);
      LexLessIrreflexive(x);
    }
  }

  /** "Not after" is transitive. */
  lemma LexNotAfterTransitive(x: string, y: string, z: string)
    requires !LexLess(y, x) && !LexLess(z, y)
    ensures !LexLess(z, x)
  {
    LexLessTrichotomy(x, y);
    LexLessTrichotomy(y, z);
    if x != y && y != z {
      LexLessTransitive(x, y, z);
    }
    if LexLess(x, z) {
      LexLessAsymmetric(x, z);
    }
    if x == z {
      LexLessIrreflexive(x);
    }
  }

  /** Every two strings are ordered one way or the other, ties allowed. */
  lemma LexNotAfterTotal(x: string, y: string)
    ensures !LexLess(y, x) || !LexLess(x, y)
  {
    if LexLess(x, y) {
      LexLessAsymmetric(x, y);
    }
  }

  /** `a.localeCompare(b)`, taken as the character-code order: negative,
      zero or positive as `a` sorts before, equal to or after `b`. */
  function LocaleCompare(a: string, b: string): (c: int)
    ensures c == 0 <==> a == b
    ensures c < 0 <==> LexLess(a, b)
    ensures c > 0 <==> LexLess(b, a)
  {
    LexLessTrichotomy(a, b);
    if LexLess(a, b) then
      LexLessAsymmetric(a, b);
      -1
    else if a == b then
      LexLessIrreflexive(a);
      0
    else 1
  }

  // ---------------------------------------------------------------------
  // Numbers as text

  /** The digit character for `d`. */
  function DigitChar(d: nat): (c: char)
    requires d < 10
    ensures '0' <= c <= '9'
    ensures c as int - '0' as int == d
  {
    ('0' as int + d) as char
  }

  /** The number a string of decimal digits spells, most significant
      digit first (the empty string spells 0). */
  function DigitsValue(r: string): int
    decreases |r|
  {
    if |r| == 0 then 0 else DigitsValue(r[..|r| - 1]) * 10 + (r[|r| - 1] as int - '0' as int)
  }

  /** The number `String(n)` spells: a leading minus sign negates the
      digits after it. */
  function NumberValue(r: string): int
  {
    if |r| > 0 && r[0] == '-' then -DigitsValue(r[1..]) else DigitsValue(r)
  }

  /** The decimal digits of `n`, most significant first, with no leading
      zero except for `n == 0` itself. */
  function Digits(n: nat): (r: string)
    ensures |r| >= 1
    ensures forall k :: 0 <= k < |r| ==> '0' <= r[k] <= '9'
    ensures r[0] == '0' ==> n == 0
    decreases n
  {
    if n < 10 then [DigitChar(n)] else Digits(n / 10) + [DigitChar(n % 10)]
  }

  /** The digits read back give the number. */
  lemma {:induction false} DigitsRoundTrip(n: nat)
    ensures DigitsValue(Digits(n)) == n
    decreases n
  {
    if n >= 10 {
      DigitsRoundTrip(n / 10);
      var r := Digits(n);
      assert r[..|r| - 1] == Digits(n / 10);
    }
  }

  /** `String(n)` for an integer `n`: a minus sign exactly for a negative
      number, then the digits of its magnitude, so never a comma or a line
      break. */
  function NumberText(n: int): (r: string)
    ensures |r| >= 1
    ensures forall k :: 0 <= k < |r| ==> r[k] == '-' || '0' <= r[k] <= '9'
    ensures r[0] == '-' <==> n < 0
  {
    if n < 0 then "-" + Digits(-n) else Digits(n)
  }

  /** The text read back gives the number. */
  lemma NumberTextRoundTrip(n: int)
    ensures NumberValue(NumberText(n)) == n
  {
    if n < 0 {
      DigitsRoundTrip(-n);
      assert NumberText(n)[1..] == Digits(-n);
    } else {
      DigitsRoundTrip(n);
    }
  }
}
