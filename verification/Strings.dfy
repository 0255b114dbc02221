/** Go's string operations that the modelled code relies on.  A Go string is a
    sequence of bytes; here it is a `string`, and case mapping touches ASCII letters only. */
module Strings {

  type Int32 = i: int | -0x8000_0000 <= i < 0x8000_0000

  datatype Option<+T> = None | Some(value: T)

  /** Reading a map with the "comma ok" idiom. */
  function Lookup<V>(m: map<string, V>, k: string): Option<V> {
    if k in m then Some(m[k]) else None
  }

  // ---------- order ----------

  /** Go's `<` on strings: lexicographic. */
  predicate Less(a: string, b: string) {
    b != [] && (a == [] || a[0] < b[0] || (a[0] == b[0] && Less(a[1..], b[1..])))
  }

  lemma {:induction false} LessIsTotal(a: string, b: string)
    ensures Less(a, b) || a == b || Less(b, a)
  {
    if a != [] && b != [] && a[0] == b[0] {
      LessIsTotal(a[1..], b[1..]);
      assert a == [a[0]] + a[1..] && b == [b[0]] + b[1..];
    }
  }

  lemma {:induction false} LessIsAsymmetric(a: string, b: string)
    requires Less(a, b)
    ensures !Less(b, a) && a != b
  {
    if a != [] && a[0] == b[0] {
      LessIsAsymmetric(a[1..], b[1..]);
    }
  }

  lemma {:induction false} LessIsTransitive(a: string, b: string, c: string)
    requires Less(a, b) && Less(b, c)
    ensures Less(a, c)
  {
    if a != [] && a[0] == b[0] == c[0] {
      LessIsTransitive(a[1..], b[1..], c[1..]);
    }
  }

  /** `a` and `b` agree up to `n`, where `a` ends or has the smaller character. */
  ghost predicate SmallerAt(a: string, b: string, n: nat) {
    n <= |a| && n < |b| && a[..n] == b[..n] && (n == |a| || a[n] < b[n])
  }

  /** The order is ascending: decided by the first character in which the strings differ. */
  lemma {:induction false} LessIff(a: string, b: string)
    ensures Less(a, b) <==> exists n: nat :: SmallerAt(a, b, n)
  {
    if a == [] || b == [] || a[0] != b[0] {
      if Less(a, b) {
        assert SmallerAt(a, b, 0);
      }
      if n: nat :| SmallerAt(a, b, n) {
        if n > 0 {
          assert a[..n][0] == b[..n][0];
        }
      }
    } else {
      LessIff(a[1..], b[1..]);
      if n: nat :| SmallerAt(a[1..], b[1..], n) {
        assert a[..n + 1] == [a[0]] + a[1..][..n] && b[..n + 1] == [b[0]] + b[1..][..n];
        assert SmallerAt(a, b, n + 1);
      }
      if n: nat :| SmallerAt(a, b, n) {
        if n > 0 {
          assert a[1..][..n - 1] == a[..n][1..] && b[1..][..n - 1] == b[..n][1..];
          assert SmallerAt(a[1..], b[1..], n - 1);
        }
      }
    }
  }

  // ---------- split and join ----------

  /** `strings.Split` on a one-character separator; the empty string gives one empty piece. */
  function Split(s: string, sep: char): (pieces: seq<string>)
    ensures |pieces| >= 1
  {
    if s == [] then [[]]
    else
      var rest := Split(s[1..], sep);
      if s[0] == sep then [[]] + rest else [[s[0]] + rest[0]] + rest[1..]
  }

  /** `strings.Join`. */
  function Join(pieces: seq<string>, sep: char): string {
    if pieces == [] then []
    else if |pieces| == 1 then pieces[0]
    else pieces[0] + [sep] + Join(pieces[1..], sep)
  }

  ghost predicate Free(pieces: seq<string>, sep: char) {
    forall p :: p in pieces ==> sep !in p
  }

  lemma {:induction false} SplitPiecesAreFree(s: string, sep: char)
    ensures Free(Split(s, sep), sep)
  {
    if s != [] {
      SplitPiecesAreFree(s[1..], sep);
      var rest := Split(s[1..], sep);
      assert rest[0] in rest;
    }
  }

  lemma {:induction false} SplitAfterPiece(a: string, rest: string, sep: char)
    requires sep !in a
    ensures Split(a + [sep] + rest, sep) == [a] + Split(rest, sep)
  {
    var s := a + [sep] + rest;
    if a == [] {
      assert s[1..] == rest;
    } else {
      assert s[1..] == a[1..] + [sep] + rest;
      SplitAfterPiece(a[1..], rest, sep);
      assert [a[0]] + a[1..] == a;
    }
  }

  /** There is one piece more than there are separators, and the first is empty only if nothing comes before one. */
  lemma {:induction false} SplitCounts(s: string, sep: char)
    ensures |Split(s, sep)| == multiset(s)[sep] + 1
    ensures Split(s, sep)[0] == "" <==> s == "" || s[0] == sep
  {
    if s != [] {
      SplitCounts(s[1..], sep);
      assert s == [s[0]] + s[1..];
    }
  }

  /** Joining the pieces of a string gives the string back. */
  lemma {:induction false} JoinOfSplit(s: string, sep: char)
    ensures Join(Split(s, sep), sep) == s
  {
    if s != [] {
      var rest := Split(s[1..], sep);
      JoinOfSplit(s[1..], sep);
      assert s == [s[0]] + s[1..];
      if s[0] == sep {
        assert Split(s, sep)[1..] == rest;
      } else {
        assert Split(s, sep)[1..] == rest[1..];
      }
    }
  }

  lemma {:induction false} SplitOfFree(a: string, sep: char)
    requires sep !in a
    ensures Split(a, sep) == [a]
  {
    if a != [] {
      SplitOfFree(a[1..], sep);
      assert [a[0]] + a[1..] == a;
    }
  }

  lemma {:induction false} SplitOfConcatenation(a: string, b: string, sep: char)
    ensures Split(a + [sep] + b, sep) == Split(a, sep) + Split(b, sep)
  {
    var s := a + [sep] + b;
    if a == [] {
      assert s[1..] == b;
    } else {
      assert s[1..] == a[1..] + [sep] + b;
      SplitOfConcatenation(a[1..], b, sep);
    }
  }

  /** A piece without separator is found again in any joined list. */
  lemma {:induction false} FreePieceIsFound(pieces: seq<string>, p: string, sep: char)
    requires p in pieces && sep !in p
    ensures p in Split(Join(pieces, sep), sep)
  {
    if p == pieces[0] {
      SplitOfFree(p, sep);
    }
    if |pieces| > 1 {
      SplitOfConcatenation(pieces[0], Join(pieces[1..], sep), sep);
      if p != pieces[0] {
        FreePieceIsFound(pieces[1..], p, sep);
      }
    }
  }

  /** Splitting a joined list gives the list back exactly when no piece holds the separator. */
  lemma {:induction false} SplitJoin(pieces: seq<string>, sep: char)
    requires pieces != []
    ensures Split(Join(pieces, sep), sep) == pieces <==> Free(pieces, sep)
  {
    SplitPiecesAreFree(Join(pieces, sep), sep);
    if Free(pieces, sep) {
      SplitJoinFree(pieces, sep);
    }
  }

  lemma {:induction false} SplitJoinFree(pieces: seq<string>, sep: char)
    requires pieces != [] && Free(pieces, sep)
    ensures Split(Join(pieces, sep), sep) == pieces
  {
    if |pieces| == 1 {
      SplitOfFree(pieces[0], sep);
    } else {
      SplitJoinFree(pieces[1..], sep);
      SplitAfterPiece(pieces[0], Join(pieces[1..], sep), sep);
    }
  }

  // ---------- decimal ----------

  function Digit(d: nat): char
    requires d < 10
  {
    ('0' as int + d) as char
  }

  function Decimal(n: nat): (s: string)
    ensures s != [] && forall c :: c in s ==> '0' <= c <= '9'
  {
    if n < 10 then [Digit(n)] else Decimal(n / 10) + [Digit(n % 10)]
  }

  /** `fmt.Sprintf("%d", i)`. */
  function FormatInt(i: int): string {
    if i < 0 then "-" + Decimal(-i) else Decimal(i)
  }

  ghost function DecimalValue(s: string): int {
    if s == [] then 0 else DecimalValue(s[..|s| - 1]) * 10 + (s[|s| - 1] as int - '0' as int)
  }

  lemma {:induction false} DecimalValueOfDecimal(n: nat)
    ensures DecimalValue(Decimal(n)) == n
  {
    if n < 10 {
      assert Decimal(n) == [Digit(n)];
      assert DecimalValue([]) == 0;
    } else {
      DecimalValueOfDecimal(n / 10);
      assert Decimal(n)[..|Decimal(n)| - 1] == Decimal(n / 10);
    }
  }

  lemma {:induction false} DecimalHasNoLeadingZero(n: nat)
    ensures n > 0 ==> Decimal(n)[0] != '0'
  {
    if n >= 10 {
      DecimalHasNoLeadingZero(n / 10);
      assert Decimal(n)[0] == Decimal(n / 10)[0];
    }
  }

  lemma FormatIntIsInjective(i: int, j: int)
    requires FormatInt(i) == FormatInt(j)
    ensures i == j
  {
    if i < 0 {
      assert FormatInt(i)[0] == '-';
      assert FormatInt(i)[1..] == Decimal(-i);
    }
    if j < 0 {
      assert FormatInt(j)[0] == '-';
      assert FormatInt(j)[1..] == Decimal(-j);
    }
    DecimalValueOfDecimal(if i < 0 then -i else i);
    DecimalValueOfDecimal(if j < 0 then -j else j);
    assert (i < 0) == (j < 0) by {
      if i >= 0 { assert FormatInt(i)[0] in Decimal(i); }
      if j >= 0 { assert FormatInt(j)[0] in Decimal(j); }
    }
  }

  // ---------- case ----------

  function UpperChar(c: char): char {
    if 'a' <= c <= 'z' then (c as int - 32) as char else c
  }

  function LowerChar(c: char): char {
    if 'A' <= c <= 'Z' then (c as int + 32) as char else c
  }

  /** `strings.ToUpper`. */
  function ToUpper(s: string): string {
    seq(|s|, i requires 0 <= i < |s| => UpperChar(s[i]))
  }

  /** `strings.EqualFold`: same length, characters equal up to case. */
  predicate EqualFold(a: string, b: string) {
    |a| == |b| && forall i :: 0 <= i < |a| ==> LowerChar(a[i]) == LowerChar(b[i])
  }

  lemma EqualFoldIsUpperEquality(a: string, b: string)
    ensures EqualFold(a, b) <==> ToUpper(a) == ToUpper(b)
  {
    if EqualFold(a, b) {
      assert forall i :: 0 <= i < |a| ==> LowerChar(a[i]) == LowerChar(b[i]) && ToUpper(a)[i] == ToUpper(b)[i];
    }
    if ToUpper(a) == ToUpper(b) {
      assert |a| == |ToUpper(a)| == |b|;
      forall i | 0 <= i < |a|
        ensures LowerChar(a[i]) == LowerChar(b[i])
      {
        assert ToUpper(a)[i] == ToUpper(b)[i];
        assert UpperChar(a[i]) == UpperChar(b[i]);
      }
    }
  }

  lemma ToUpperIsIdempotent(s: string)
    ensures ToUpper(ToUpper(s)) == ToUpper(s)
  {
  }

  // ---------- white space ----------

  /** `unicode.IsSpace`. */
  predicate IsSpace(c: char) {
    var x := c as int;
    9 <= x <= 13 || x == 0x20 || x == 0x85 || x == 0xA0 || x == 0x1680 || 0x2000 <= x <= 0x200A ||
    x == 0x2028 || x == 0x2029 || x == 0x202F || x == 0x205F || x == 0x3000
  }

  function TrimLeft(s: string): string {
    if s != [] && IsSpace(s[0]) then TrimLeft(s[1..]) else s
  }

  function TrimRight(s: string): string {
    if s != [] && IsSpace(s[|s| - 1]) then TrimRight(s[..|s| - 1]) else s
  }

  /** `strings.TrimSpace`. */
  function TrimSpace(s: string): string {
    TrimRight(TrimLeft(s))
  }

  ghost predicate AllSpace(s: string) {
    forall i :: 0 <= i < |s| ==> IsSpace(s[i])
  }

  lemma {:induction false} TrimLeftIsEmpty(s: string)
    ensures TrimLeft(s) == [] <==> AllSpace(s)
    ensures TrimLeft(s) != [] ==> !IsSpace(TrimLeft(s)[0])
  {
    if s != [] && IsSpace(s[0]) {
      TrimLeftIsEmpty(s[1..]);
      assert AllSpace(s) <==> AllSpace(s[1..]) by {
        assert forall i :: 0 < i < |s| ==> s[i] == s[1..][i - 1];
      }
    }
  }

  lemma {:induction false} TrimRightIsEmpty(s: string)
    ensures TrimRight(s) == [] <==> AllSpace(s)
  {
    if s != [] && IsSpace(s[|s| - 1]) {
      TrimRightIsEmpty(s[..|s| - 1]);
    }
  }

  /** Trimming empties exactly the strings made of white space. */
  lemma TrimSpaceIsEmpty(s: string)
    ensures TrimSpace(s) == [] <==> AllSpace(s)
  {
    TrimLeftIsEmpty(s);
    TrimRightIsEmpty(TrimLeft(s));
  }

  lemma {:induction false} TrimRightIsPrefix(s: string)
    ensures TrimRight(s) <= s
    ensures TrimRight(s) != [] ==> !IsSpace(TrimRight(s)[|TrimRight(s)| - 1])
  {
    if s != [] && IsSpace(s[|s| - 1]) {
      TrimRightIsPrefix(s[..|s| - 1]);
    }
  }

  lemma {:induction false} TrimLeftIsSuffix(s: string)
    ensures |TrimLeft(s)| <= |s| && TrimLeft(s) == s[|s| - |TrimLeft(s)|..]
  {
    if s != [] && IsSpace(s[0]) {
      TrimLeftIsSuffix(s[1..]);
    }
  }

  /** Trimming introduces no character and trims completely. */
  lemma TrimSpaceIsStable(s: string)
    ensures TrimSpace(TrimSpace(s)) == TrimSpace(s)
    ensures forall c :: c in TrimSpace(s) ==> c in s
  {
    TrimLeftIsEmpty(s);
    TrimLeftIsSuffix(s);
    TrimRightIsPrefix(TrimLeft(s));
    assert forall c :: c in TrimLeft(s) ==> c in s;
  }

  lemma {:induction false} TrimLeftPadding(l: string, s: string)
    requires AllSpace(l)
    ensures TrimLeft(l + s) == TrimLeft(s)
  {
    if l == [] {
      assert l + s == s;
    } else {
      assert (l + s)[1..] == l[1..] + s;
      assert IsSpace(l[0]);
      assert AllSpace(l[1..]) by {
        assert forall i :: 0 <= i < |l[1..]| ==> l[1..][i] == l[i + 1];
      }
      TrimLeftPadding(l[1..], s);
    }
  }

  lemma {:induction false} TrimRightPadding(s: string, r: string)
    requires AllSpace(r)
    ensures TrimRight(s + r) == TrimRight(s)
  {
    if r == [] {
      assert s + r == s;
    } else {
      assert (s + r)[..|s + r| - 1] == s + r[..|r| - 1];
      TrimRightPadding(s, r[..|r| - 1]);
    }
  }

  lemma TrimmedOnTheLeft(s: string)
    requires TrimSpace(s) == s
    ensures TrimLeft(s) == s
  {
    var t := TrimLeft(s);
    TrimLeftIsSuffix(s);
    TrimRightIsPrefix(t);
    assert |s| == |TrimRight(t)| <= |t|;
    assert s[0..] == s;
  }

  lemma TrimmedEnds(s: string)
    requires s != "" && TrimSpace(s) == s
    ensures !IsSpace(s[0]) && !IsSpace(s[|s| - 1])
  {
    TrimmedOnTheLeft(s);
    TrimLeftIsEmpty(s);
    TrimRightIsPrefix(s);
  }

  /** White space around a trimmed text is what trimming removes. */
  lemma TrimSpaceRemovesPadding(l: string, s: string, r: string)
    requires AllSpace(l) && AllSpace(r) && TrimSpace(s) == s
    ensures TrimSpace(l + s + r) == s
  {
    if s == "" {
      assert AllSpace(l + s + r);
      TrimSpaceIsEmpty(l + s + r);
    } else {
      TrimmedEnds(s);
      assert l + s + r == l + (s + r);
      TrimLeftPadding(l, s + r);
      assert (s + r)[0] == s[0];
      TrimRightPadding(s, r);
    }
  }
}
