/** String helpers the services rely on: decimal rendering of numbers
    (`Number.prototype.toString`), `String.prototype.trim`, `split` on a
    character and `startsWith`. */
module Text {

  predicate IsDigit(c: char) { '0' <= c <= '9' }

  predicate IsUpper(c: char) { 'A' <= c <= 'Z' }

  /** The characters JavaScript's `trim` and the regular-expression class `\s`
      remove: WhiteSpace and LineTerminator of ECMAScript. */
  predicate IsSpace(c: char)
  {
    c == ' ' || c == '\t' || c == '\n' || c == '\r' || c == '\U{0B}' || c == '\U{0C}'
    || c == '\U{A0}' || c == '\U{1680}' || ('\U{2000}' <= c <= '\U{200A}')
    || c == '\U{2028}' || c == '\U{2029}' || c == '\U{202F}' || c == '\U{205F}'
    || c == '\U{3000}' || c == '\U{FEFF}'
  }

  predicate AllDigits(s: string) { forall i :: 0 <= i < |s| ==> IsDigit(s[i]) }

  predicate AllSpace(s: string) { forall i :: 0 <= i < |s| ==> IsSpace(s[i]) }

  // ---------------------------------------------------------------------------
  // Decimal rendering
  // ---------------------------------------------------------------------------

  function DigitChar(d: nat): (c: char)
    requires d < 10
    ensures IsDigit(c) && c as int - '0' as int == d
  {
    (d + '0' as int) as char
  }

  /** The decimal representation of `n`, as `n.toString()` gives it: no sign,
      no leading zeros. */
  function DecimalString(n: nat): (s: string)
    ensures 1 <= |s| && AllDigits(s)
    ensures n < 10 <==> |s| == 1
    ensures |s| > 1 ==> s[0] != '0'
    decreases n
  {
    if n < 10 then [DigitChar(n)] else DecimalString(n / 10) + [DigitChar(n % 10)]
  }

  function Pow10(k: nat): (p: nat)
    ensures p >= 1
  {
    if k == 0 then 1 else 10 * Pow10(k - 1)
  }

  /** A number with exactly `k` digits is rendered with exactly `k` characters. */
  lemma {:induction false} DecimalStringLength(n: nat, k: nat)
    requires 1 <= k && Pow10(k - 1) <= n < Pow10(k)
    ensures |DecimalString(n)| == k
    decreases k
  {
    if k == 1 {
      assert Pow10(1) == 10;
    } else {
      var p := Pow10(k - 2);
      assert Pow10(k - 1) == 10 * p;
      assert Pow10(k) == 100 * p;
      assert n >= 10;
      assert p <= n / 10 < 10 * p;
      DecimalStringLength(n / 10, k - 1);
    }
  }

  /** Rendering is injective: distinct numbers give distinct strings. */
  lemma {:induction false} DecimalStringInjective(n: nat, m: nat)
    requires DecimalString(n) == DecimalString(m)
    ensures n == m
    decreases n
  {
    var s := DecimalString(n);
    if n < 10 || m < 10 {
      assert n < 10 && m < 10;
      assert s[0] as int - '0' as int == n;
    } else {
      var a, b := DecimalString(n / 10), DecimalString(m / 10);
      assert s == a + [DigitChar(n % 10)] && s == b + [DigitChar(m % 10)];
      assert s[|s| - 1] == DigitChar(n % 10) == DigitChar(m % 10);
      assert a == s[..|s| - 1] == b;
      DecimalStringInjective(n / 10, m / 10);
    }
  }

  // ---------------------------------------------------------------------------
  // startsWith, trim
  // ---------------------------------------------------------------------------

  predicate StartsWith(s: string, prefix: string)
  {
    |prefix| <= |s| && s[..|prefix|] == prefix
  }

  /** The index of the first character at or after `i` that is not white
      space, or `|s|`. */
  function SkipSpace(s: string, i: nat): (r: nat)
    requires i <= |s|
    ensures i <= r <= |s|
    ensures forall k :: i <= k < r ==> IsSpace(s[k])
    ensures r < |s| ==> !IsSpace(s[r])
    decreases |s| - i
  {
    if i < |s| && IsSpace(s[i]) then SkipSpace(s, i + 1) else i
  }

  /** The end of `s[..j]` once its trailing white space is dropped. */
  function SkipSpaceBack(s: string, j: nat): (r: nat)
    requires j <= |s|
    ensures r <= j
    ensures forall k :: r <= k < j ==> IsSpace(s[k])
    ensures r > 0 ==> !IsSpace(s[r - 1])
  {
    if j > 0 && IsSpace(s[j - 1]) then SkipSpaceBack(s, j - 1) else j
  }

  /** `s.trim()`: the longest infix of `s` that neither starts nor ends with
      white space, obtained by dropping white space at both ends. */
  function Trim(s: string): (r: string)
    ensures |r| <= |s|
    ensures r != [] ==> !IsSpace(r[0]) && !IsSpace(r[|r| - 1])
    ensures r == [] <==> AllSpace(s)
    ensures exists i, j :: 0 <= i <= j <= |s| && r == s[i..j] && AllSpace(s[..i]) && AllSpace(s[j..])
  {
    var start := SkipSpace(s, 0);
    if start == |s| then
      assert s[0..0] == [] && s[..0] == [] && s[0..] == s;
      []
    else
      var end := SkipSpaceBack(s, |s|);
      assert AllSpace(s[..start]) && AllSpace(s[end..]);
      s[start..end]
  }

  /** Trimming takes off exactly the white space at both ends: a text made
      of white space, a middle that neither starts nor ends with white
      space, and white space again trims to that middle. */
  lemma TrimOf(lead: string, middle: string, trail: string)
    requires AllSpace(lead) && AllSpace(trail)
    requires middle != [] ==> !IsSpace(middle[0]) && !IsSpace(middle[|middle| - 1])
    ensures Trim(lead + middle + trail) == middle
  {
    var s := lead + middle + trail;
    if middle == [] {
      assert AllSpace(s) by {
        forall k | 0 <= k < |s| ensures IsSpace(s[k]) {
          if k < |lead| { assert s[k] == lead[k]; } else { assert s[k] == trail[k - |lead|]; }
        }
      }
    } else {
      var i, j := |lead|, |lead| + |middle|;
      assert s[i] == middle[0] && s[j - 1] == middle[|middle| - 1];
      assert forall k :: 0 <= k < i ==> s[k] == lead[k];
      assert forall k :: j <= k < |s| ==> s[k] == trail[k - j];
      assert SkipSpace(s, 0) == i;
      assert SkipSpaceBack(s, |s|) == j;
      assert s[i..j] == middle;
    }
  }

  /** Trimming twice trims nothing more. */
  lemma TrimIdempotent(s: string)
    ensures Trim(Trim(s)) == Trim(s)
  {
    var r := Trim(s);
    if r != [] {
      assert SkipSpace(r, 0) == 0;
      assert SkipSpaceBack(r, |r|) == |r|;
    }
  }

  /** Trimming keeps a contiguous stretch of `s`, so every character it
      keeps comes from `s`. */
  lemma TrimInfix(s: string, j: nat)
    requires j < |Trim(s)|
    ensures Trim(s)[j] in s
  {
    var r := Trim(s);
    var a, b :| 0 <= a <= b <= |s| && r == s[a..b] && AllSpace(s[..a]) && AllSpace(s[b..]);
    assert r[j] == s[a + j];
  }

  // ---------------------------------------------------------------------------
  // split
  // ---------------------------------------------------------------------------

  /** `s.split(sep)` where the separator is every single character satisfying
      `isSep`: the maximal separator-free pieces, in order, empty ones included;
      an empty string gives one empty piece. */
  function SplitWhere(s: string, isSep: char -> bool): (parts: seq<string>)
    ensures |parts| >= 1
    ensures forall i, j :: 0 <= i < |parts| && 0 <= j < |parts[i]| ==> !isSep(parts[i][j])
  {
    if s == [] then [[]]
    else
      var rest := SplitWhere(s[1..], isSep);
      if isSep(s[0]) then [[]] + rest
      else
        var first := [s[0]] + rest[0];
        assert forall j :: 0 <= j < |first| ==> !isSep(first[j]) by {
          forall j | 0 <= j < |first| ensures !isSep(first[j]) {
            if j > 0 { assert first[j] == rest[0][j - 1]; }
          }
        }
        [first] + rest[1..]
  }

  function Split(s: string, sep: char): (parts: seq<string>)
    ensures |parts| >= 1
    ensures forall i :: 0 <= i < |parts| ==> sep !in parts[i]
  {
    SplitWhere(s, c => c == sep)
  }

  function JoinWith(parts: seq<string>, sep: char): string
    requires |parts| >= 1
  {
    if |parts| == 1 then parts[0] else parts[0] + [sep] + JoinWith(parts[1..], sep)
  }

  /** Splitting on one character and joining the pieces back with it gives the
      original string. */
  lemma {:induction false} SplitJoin(s: string, sep: char)
    ensures JoinWith(Split(s, sep), sep) == s
  {
    if s != [] {
      var rest := Split(s[1..], sep);
      SplitJoin(s[1..], sep);
      assert Split(s, sep) == (if s[0] == sep then [[]] + rest else [[s[0]] + rest[0]] + rest[1..]);
      if s[0] == sep {
        assert JoinWith([[]] + rest, sep) == [sep] + JoinWith(rest, sep);
        assert s == [s[0]] + s[1..];
      } else if |rest| == 1 {
        assert s == [s[0]] + s[1..];
      } else {
        var parts := [[s[0]] + rest[0]] + rest[1..];
        assert parts[1..] == rest[1..];
        assert JoinWith(parts, sep) == [s[0]] + (rest[0] + [sep] + JoinWith(rest[1..], sep));
        assert s == [s[0]] + s[1..];
      }
    }
  }

  /** A separator splits the text in two: the pieces of the whole are the
      pieces of the part before it followed by those of the part after it. */
  lemma {:induction false} SplitAppend(a: string, b: string, sep: char)
    ensures Split(a + [sep] + b, sep) == Split(a, sep) + Split(b, sep)
    decreases |a|
  {
    var s := a + [sep] + b;
    if a == [] {
      assert s[1..] == b;
      SplitUnfold(s, sep);
    } else {
      assert s[0] == a[0] && s[1..] == a[1..] + [sep] + b;
      SplitAppend(a[1..], b, sep);
      var rest, restA, restB := Split(s[1..], sep), Split(a[1..], sep), Split(b, sep);
      SplitUnfold(s, sep);
      SplitUnfold(a, sep);
      if a[0] == sep {
        calc {
          Split(s, sep);
          [[]] + (restA + restB);
          ([[]] + restA) + restB;
        }
      } else {
        assert rest[0] == restA[0];
        assert rest[1..] == restA[1..] + restB;
        calc {
          Split(s, sep);
          [[a[0]] + restA[0]] + (restA[1..] + restB);
          ([[a[0]] + restA[0]] + restA[1..]) + restB;
        }
      }
    }
  }

  /** One step of `Split`: the first character either ends the first piece
      or joins it. */
  lemma SplitUnfold(s: string, sep: char)
    requires s != []
    ensures var rest := Split(s[1..], sep);
      Split(s, sep) == if s[0] == sep then [[]] + rest else [[s[0]] + rest[0]] + rest[1..]
  {
  }

  /** A text without the separator is a single piece. */
  lemma {:induction false} SplitWithoutSeparator(s: string, sep: char)
    requires sep !in s
    ensures Split(s, sep) == [s]
    decreases |s|
  {
    if s != [] {
      assert sep !in s[1..];
      SplitWithoutSeparator(s[1..], sep);
      assert Split(s, sep) == [[s[0]] + s[1..]];
      assert [s[0]] + s[1..] == s;
    }
  }

  /** A character that is not the separator extends the last piece. */
  lemma {:induction false} SplitSnoc(s: string, c: char, sep: char)
    requires c != sep
    ensures var p := Split(s, sep);
      Split(s + [c], sep) == p[..|p| - 1] + [p[|p| - 1] + [c]]
    decreases |s|
  {
    var t := s + [c];
    if s == [] {
      assert t == [c] && t[1..] == s;
      var p := Split(s, sep);
      assert p == [[]];
      assert Split(t, sep) == [[c] + p[0]] + p[1..];
      assert [c] + p[0] == [c] && p[1..] == [];
    } else {
      assert t[0] == s[0] && t[1..] == s[1..] + [c];
      SplitSnoc(s[1..], c, sep);
      var rest, restS := Split(t[1..], sep), Split(s[1..], sep);
      assert Split(t, sep) == (if s[0] == sep then [[]] + rest else [[s[0]] + rest[0]] + rest[1..]);
      assert Split(s, sep) == (if s[0] == sep then [[]] + restS else [[s[0]] + restS[0]] + restS[1..]);
      var n := |restS|;
      assert rest == restS[..n - 1] + [restS[n - 1] + [c]];
      var p := Split(s, sep);
      if s[0] == sep {
        assert p[..|p| - 1] == [[]] + restS[..n - 1] && p[|p| - 1] == restS[n - 1];
      } else if n == 1 {
        assert p == [[s[0]] + restS[0]];
        assert [s[0]] + (restS[0] + [c]) == ([s[0]] + restS[0]) + [c];
      } else {
        assert rest[0] == restS[0];
        assert rest[1..] == restS[1..n - 1] + [restS[n - 1] + [c]];
        assert p[..|p| - 1] == [[s[0]] + restS[0]] + restS[1..n - 1] && p[|p| - 1] == restS[n - 1];
      }
    }
  }

  /** The last piece is a suffix of the text: when it is not empty it ends
      with the text's last character. */
  lemma {:induction false} SplitLastPiece(s: string, sep: char)
    ensures var p := Split(s, sep);
      p[|p| - 1] != [] ==> s != [] && p[|p| - 1][|p[|p| - 1]| - 1] == s[|s| - 1]
    decreases |s|
  {
    if s != [] {
      SplitLastPiece(s[1..], sep);
      var rest := Split(s[1..], sep);
      assert Split(s, sep) == (if s[0] == sep then [[]] + rest else [[s[0]] + rest[0]] + rest[1..]);
      if s[0] != sep && |rest| == 1 && rest[0] == [] {
        SplitJoin(s[1..], sep);
        assert s == [s[0]];
      }
    }
  }

  /** `s` with every character satisfying `isSep` replaced by `sep`. */
  function ReplaceWhere(s: string, isSep: char -> bool, sep: char): (r: string)
    ensures |r| == |s|
    ensures forall i :: 0 <= i < |s| ==> r[i] == if isSep(s[i]) then sep else s[i]
  {
    if s == [] then [] else [if isSep(s[0]) then sep else s[0]] + ReplaceWhere(s[1..], isSep, sep)
  }

  /** Splitting at several separator characters is splitting at one of them
      once the others are replaced by it. */
  lemma {:induction false} SplitWhereAsSplit(s: string, isSep: char -> bool, sep: char)
    requires isSep(sep)
    ensures SplitWhere(s, isSep) == Split(ReplaceWhere(s, isSep, sep), sep)
    decreases |s|
  {
    if s != [] {
      var t := ReplaceWhere(s, isSep, sep);
      SplitWhereAsSplit(s[1..], isSep, sep);
      assert t[1..] == ReplaceWhere(s[1..], isSep, sep);
      var rest := Split(t[1..], sep);
      assert Split(t, sep) == (if t[0] == sep then [[]] + rest else [[t[0]] + rest[0]] + rest[1..]);
    }
  }

  /** `parts.map((p) => p.trim())`. */
  function TrimEach(parts: seq<string>): (r: seq<string>)
    ensures |r| == |parts|
    ensures forall i :: 0 <= i < |r| ==> r[i] == Trim(parts[i])
  {
    if parts == [] then [] else [Trim(parts[0])] + TrimEach(parts[1..])
  }

  /** `parts.filter(Boolean)`: the non-empty strings, in order. */
  function NonEmptyOnly(parts: seq<string>): (r: seq<string>)
    ensures |r| <= |parts|
    ensures forall i :: 0 <= i < |r| ==> r[i] != ""
    ensures forall i :: 0 <= i < |r| ==> r[i] in parts
  {
    if parts == [] then []
    else
      var rest := NonEmptyOnly(parts[1..]);
      assert forall i :: 1 <= i < |parts| ==> parts[i] == parts[1..][i - 1];
      if parts[0] == "" then rest else [parts[0]] + rest
  }

  /** Filtering drops only empty strings. */
  lemma {:induction false} NonEmptyOnlyKeeps(parts: seq<string>, i: nat)
    requires i < |parts| && parts[i] != ""
    ensures parts[i] in NonEmptyOnly(parts)
  {
    if i > 0 {
      assert parts[i] == parts[1..][i - 1];
      NonEmptyOnlyKeeps(parts[1..], i - 1);
    }
  }

  /** Filtering works piece by piece, in order: the result for a
      concatenation is the concatenation of the results, and a single
      string is kept exactly when it is not empty. */
  lemma {:induction false} NonEmptyOnlyAppend(a: seq<string>, b: seq<string>)
    ensures NonEmptyOnly(a + b) == NonEmptyOnly(a) + NonEmptyOnly(b)
    ensures |a| == 1 ==> NonEmptyOnly(a) == if a[0] == "" then [] else a
    decreases |a|
  {
    if a != [] {
      var ab := a + b;
      assert ab[0] == a[0] && ab[1..] == a[1..] + b;
      NonEmptyOnlyAppend(a[1..], b);
      var head: seq<string> := if a[0] == "" then [] else [a[0]];
      assert NonEmptyOnly(ab) == head + (NonEmptyOnly(a[1..]) + NonEmptyOnly(b));
      assert NonEmptyOnly(a) == head + NonEmptyOnly(a[1..]);
      if |a| == 1 {
        assert a[1..] == [];
      }
    } else {
      assert a + b == b;
    }
  }
}
