/**
 * The .NET string operations the core relies on: String.Split, String.Trim,
 * String.ToLower, String.Contains and Int32.TryParse, each stated on
 * `string` (a sequence of Unicode scalar values).
 */
module Text {
  import opened Wrappers
  import opened Integers

  // ---------------------------------------------------------------------
  // Whitespace and trimming
  // ---------------------------------------------------------------------

  /** Char.IsWhiteSpace: the Unicode space separators, the line and paragraph separators, and the controls U+0009..U+000D and U+0085. */
  predicate IsWhiteSpace(c: char) {
    c == ' ' || '\t' <= c <= '\r' || c == '\U{85}' || c == '\U{A0}' || c == '\U{1680}'
    || '\U{2000}' <= c <= '\U{200A}' || c == '\U{2028}' || c == '\U{2029}'
    || c == '\U{202F}' || c == '\U{205F}' || c == '\U{3000}'
  }

  /** The narrower whitespace that Int32.TryParse skips around a number: space and U+0009..U+000D. */
  predicate IsNumberWhite(c: char) {
    c == ' ' || '\t' <= c <= '\r'
  }

  /** How many leading characters satisfy `white`. */
  function LeadingCount(s: string, white: char -> bool): (n: nat)
    ensures n <= |s|
    ensures forall k :: 0 <= k < n ==> white(s[k])
    ensures n < |s| ==> !white(s[n])
  {
    if s != [] && white(s[0]) then
      var n := 1 + LeadingCount(s[1..], white);
      assert forall k :: 1 <= k < n ==> s[k] == s[1..][k - 1];
      n
    else 0
  }

  /** How many trailing characters satisfy `white`. */
  function TrailingCount(s: string, white: char -> bool): (n: nat)
    ensures n <= |s|
    ensures forall k :: |s| - n <= k < |s| ==> white(s[k])
    ensures n < |s| ==> !white(s[|s| - n - 1])
  {
    if s != [] && white(s[|s| - 1]) then
      var n := 1 + TrailingCount(s[..|s| - 1], white);
      assert forall k :: |s| - n <= k < |s| - 1 ==> s[k] == s[..|s| - 1][k];
      n
    else 0
  }

  /**
   * `r` sits at position `i` of `s` with only `white` characters before and
   * after it.
   */
  ghost predicate TrimmedAt(s: string, white: char -> bool, r: string, i: int) {
    && 0 <= i <= |s| - |r| && s[i..i + |r|] == r
    && (forall k :: 0 <= k < i ==> white(s[k]))
    && (forall k :: i + |r| <= k < |s| ==> white(s[k]))
  }

  /**
   * Both ends trimmed: `r` is the infix of `s` left after removing a run of
   * `white` characters at each end, and it neither starts nor ends with one.
   */
  function TrimBy(s: string, white: char -> bool): (r: string)
    ensures exists i :: TrimmedAt(s, white, r, i)
    ensures r != [] ==> !white(r[0]) && !white(r[|r| - 1])
  {
    var i := LeadingCount(s, white);
    var e := if i == |s| then |s| else |s| - TrailingCount(s, white);
    assert TrimmedAt(s, white, s[i..e], i);
    s[i..e]
  }

  /** Trimming keeps only characters of the original string. */
  lemma TrimByIsInfix(s: string, white: char -> bool)
    ensures forall c :: c in TrimBy(s, white) ==> c in s
  {
    var r := TrimBy(s, white);
    var i :| TrimmedAt(s, white, r, i);
    forall c | c in r
      ensures c in s
    {
      var k :| 0 <= k < |r| && r[k] == c;
      assert s[i..i + |r|][k] == s[i + k];
    }
  }

  /** String.Trim(). */
  function Trim(s: string): string {
    TrimBy(s, IsWhiteSpace)
  }

  /** A string that neither starts nor ends with whitespace is its own trim. */
  lemma TrimUntouched(s: string)
    requires s != [] ==> !IsWhiteSpace(s[0]) && !IsWhiteSpace(s[|s| - 1])
    ensures Trim(s) == s
  {
    TrimByUntouched(s, IsWhiteSpace);
  }

  /** Nothing to trim at either end: the string is kept whole. */
  lemma TrimByUntouched(s: string, white: char -> bool)
    requires s != [] ==> !white(s[0]) && !white(s[|s| - 1])
    ensures TrimBy(s, white) == s
  {
    assert LeadingCount(s, white) == 0;
    if s != [] {
      assert TrailingCount(s, white) == 0;
    }
    assert s[0..|s|] == s;
  }

  // ---------------------------------------------------------------------
  // Splitting
  // ---------------------------------------------------------------------

  /**
   * String.Split(sep) with no options: the pieces between separators, empty
   * pieces included, so `k` separators give `k + 1` pieces.
   */
  function Split(s: string, sep: char): (parts: seq<string>)
    ensures |parts| >= 1
    ensures forall i :: 0 <= i < |parts| ==> sep !in parts[i]
  {
    if s == [] then [""]
    else
      var rest := Split(s[1..], sep);
      if s[0] == sep then [""] + rest else [[s[0]] + rest[0]] + rest[1..]
  }

  /** `s` is `a`, then the separator, then `b`, with no separator in either piece. */
  ghost predicate SplitsInTwo(s: string, sep: char, a: string, b: string) {
    s == a + [sep] + b && sep !in a && sep !in b
  }

  /** String.Join(sep, parts), the inverse of Split. */
  function Join(parts: seq<string>, sep: char): string {
    if parts == [] then ""
    else if |parts| == 1 then parts[0]
    else parts[0] + [sep] + Join(parts[1..], sep)
  }

  /** Joining the pieces back with the separator restores the input. */
  lemma {:induction false} JoinSplit(s: string, sep: char)
    ensures Join(Split(s, sep), sep) == s
  {
    if s != [] {
      var rest := Split(s[1..], sep);
      JoinSplit(s[1..], sep);
      if s[0] == sep {
        assert Split(s, sep) == [""] + rest;
        assert ([""] + rest)[1..] == rest;
      } else {
        var parts := [[s[0]] + rest[0]] + rest[1..];
        assert Split(s, sep) == parts;
        if |rest| == 1 {
          assert Join(parts, sep) == [s[0]] + rest[0];
        } else {
          assert parts[1..] == rest[1..];
          assert Join(parts, sep) == [s[0]] + rest[0] + [sep] + Join(rest[1..], sep);
        }
      }
    }
  }

  /** Splitting a join of separator-free pieces gives the pieces back. */
  lemma {:induction false} SplitJoin(parts: seq<string>, sep: char)
    requires |parts| >= 1
    requires forall i :: 0 <= i < |parts| ==> sep !in parts[i]
    ensures Split(Join(parts, sep), sep) == parts
  {
    if |parts| == 1 {
      SplitPiece(parts[0], sep);
    } else {
      var tail := Join(parts[1..], sep);
      SplitJoin(parts[1..], sep);
      SplitPieceThenSep(parts[0], tail, sep);
      assert Join(parts, sep) == parts[0] + ([sep] + tail);
      assert [parts[0]] + parts[1..] == parts;
    }
  }

  /**
   * Split gives two pieces exactly when the string holds one separator, and
   * the pieces are then the text before and after it.
   */
  lemma SplitTwo(s: string, sep: char)
    ensures |Split(s, sep)| == 2 <==> exists a, b :: SplitsInTwo(s, sep, a, b)
    ensures forall a, b :: SplitsInTwo(s, sep, a, b) ==> Split(s, sep) == [a, b]
  {
    forall a, b | SplitsInTwo(s, sep, a, b)
      ensures Split(s, sep) == [a, b]
    {
      assert [a, b][1..] == [b];
      assert Join([a, b], sep) == s;
      SplitJoin([a, b], sep);
    }
    var parts := Split(s, sep);
    if |parts| == 2 {
      JoinSplit(s, sep);
      assert parts[1..] == [parts[1]];
      assert Join(parts, sep) == parts[0] + [sep] + parts[1];
      assert SplitsInTwo(s, sep, parts[0], parts[1]);
    }
  }

  /** A separator-free string is one piece. */
  lemma {:induction false} SplitPiece(p: string, sep: char)
    requires sep !in p
    ensures Split(p, sep) == [p]
  {
    if p != [] {
      SplitPiece(p[1..], sep);
      assert [p[0]] + p[1..] == p;
    }
  }

  /** A separator-free prefix followed by a separator becomes its own first piece. */
  lemma {:induction false} SplitPieceThenSep(p: string, tail: string, sep: char)
    requires sep !in p
    ensures Split(p + ([sep] + tail), sep) == [p] + Split(tail, sep)
  {
    var s := p + ([sep] + tail);
    if p == [] {
      assert s == [sep] + tail;
      assert s[1..] == tail;
    } else {
      assert s[1..] == p[1..] + ([sep] + tail);
      SplitPieceThenSep(p[1..], tail, sep);
      assert [p[0]] + p[1..] == p;
    }
  }

  /** StringSplitOptions.RemoveEmptyEntries: keeps the non-empty pieces, in order. */
  function RemoveEmpty(parts: seq<string>): (r: seq<string>)
    ensures forall i :: 0 <= i < |r| ==> r[i] != ""
    ensures forall x :: x in r <==> x in parts && x != ""
    ensures |r| <= |parts|
  {
    if parts == [] then []
    else if parts[0] == "" then RemoveEmpty(parts[1..])
    else [parts[0]] + RemoveEmpty(parts[1..])
  }

  /** A single piece is kept exactly when it is not empty. */
  lemma RemoveEmptyOne(p: string)
    ensures RemoveEmpty([p]) == if p == "" then [] else [p]
  {
    assert [p][1..] == [];
  }

  /** Empty pieces are removed piece by piece: the kept pieces stay in order, duplicates included. */
  lemma {:induction false} RemoveEmptyAppend(a: seq<string>, b: seq<string>)
    ensures RemoveEmpty(a + b) == RemoveEmpty(a) + RemoveEmpty(b)
  {
    if a == [] {
      assert a + b == b;
    } else {
      assert (a + b)[0] == a[0];
      assert (a + b)[1..] == a[1..] + b;
      RemoveEmptyAppend(a[1..], b);
    }
  }

  /** Pieces that are all non-empty are kept as they are. */
  lemma {:induction false} RemoveEmptyOfNonEmpty(parts: seq<string>)
    requires forall i :: 0 <= i < |parts| ==> parts[i] != ""
    ensures RemoveEmpty(parts) == parts
  {
    if parts != [] {
      RemoveEmptyOfNonEmpty(parts[1..]);
      assert [parts[0]] + parts[1..] == parts;
    }
  }

  /** String.Split(sep, StringSplitOptions.RemoveEmptyEntries). */
  function SplitNonEmpty(s: string, sep: char): seq<string> {
    RemoveEmpty(Split(s, sep))
  }

  /** Splitting a join of non-empty, separator-free pieces, dropping empty ones, gives the pieces back. */
  lemma SplitNonEmptyJoin(parts: seq<string>, sep: char)
    requires forall i :: 0 <= i < |parts| ==> parts[i] != "" && sep !in parts[i]
    ensures SplitNonEmpty(Join(parts, sep), sep) == parts
  {
    if parts != [] {
      SplitJoin(parts, sep);
      RemoveEmptyOfNonEmpty(parts);
    }
  }

  /** Splitting a string drops every piece exactly when the string is made of separators only. */
  lemma SplitNonEmptyIsEmpty(s: string, sep: char)
    ensures SplitNonEmpty(s, sep) == [] <==> forall k :: 0 <= k < |s| ==> s[k] == sep
  {
    var parts := Split(s, sep);
    var r := RemoveEmpty(parts);
    if forall k :: 0 <= k < |s| ==> s[k] == sep {
      OnlySeparatorsSplit(s, sep);
      RemoveEmptyOfEmpties(parts);
    } else {
      var k :| 0 <= k < |s| && s[k] != sep;
      JoinSplit(s, sep);
      if r == [] {
        forall i | 0 <= i < |parts|
          ensures parts[i] == ""
        {
          assert parts[i] in parts;
        }
        JoinOfEmpties(parts, sep);
        assert false;
      }
    }
  }

  /** Removing the empty pieces of a list of empty pieces leaves nothing. */
  lemma {:induction false} RemoveEmptyOfEmpties(parts: seq<string>)
    requires forall i :: 0 <= i < |parts| ==> parts[i] == ""
    ensures RemoveEmpty(parts) == []
  {
    if parts != [] {
      RemoveEmptyOfEmpties(parts[1..]);
    }
  }

  /** Only separators: every piece is empty. */
  lemma {:induction false} OnlySeparatorsSplit(s: string, sep: char)
    requires forall k :: 0 <= k < |s| ==> s[k] == sep
    ensures forall i :: 0 <= i < |Split(s, sep)| ==> Split(s, sep)[i] == ""
  {
    if s != [] {
      OnlySeparatorsSplit(s[1..], sep);
    }
  }

  /** Joining empty pieces gives a string of separators. */
  lemma {:induction false} JoinOfEmpties(parts: seq<string>, sep: char)
    requires forall i :: 0 <= i < |parts| ==> parts[i] == ""
    ensures forall k :: 0 <= k < |Join(parts, sep)| ==> Join(parts, sep)[k] == sep
  {
    if |parts| > 1 {
      JoinOfEmpties(parts[1..], sep);
    }
  }

  // ---------------------------------------------------------------------
  // Case and substrings
  // ---------------------------------------------------------------------

  /** Lower-case mapping of one character, for the ASCII letters. */
  function ToLowerChar(c: char): (r: char)
    ensures 'A' <= c <= 'Z' ==> r as int == c as int + 32
    ensures !('A' <= c <= 'Z') ==> r == c
  {
    if 'A' <= c <= 'Z' then (c as int + 32) as char else c
  }

  /** String.ToLower(), on ASCII letters. */
  function ToLower(s: string): (r: string)
    ensures |r| == |s|
    ensures forall i :: 0 <= i < |s| ==> r[i] == ToLowerChar(s[i])
  {
    seq(|s|, i requires 0 <= i < |s| => ToLowerChar(s[i]))
  }

  /** Lower-casing leaves no ASCII capital behind, so a second pass changes nothing. */
  lemma ToLowerLowers(s: string)
    ensures forall i :: 0 <= i < |s| ==> !('A' <= ToLower(s)[i] <= 'Z')
    ensures ToLower(ToLower(s)) == ToLower(s)
  {
    var r := ToLower(s);
    forall i | 0 <= i < |s|
      ensures ToLowerChar(r[i]) == r[i]
    {
      assert r[i] == ToLowerChar(s[i]);
    }
  }

  /** String.Contains(t): ordinal substring search. */
  predicate Contains(s: string, t: string) {
    |t| <= |s| && (s[..|t|] == t || Contains(s[1..], t))
  }

  /** `t` occurs in `s` starting at position `i`. */
  ghost predicate OccursAt(s: string, t: string, i: int) {
    0 <= i <= |s| - |t| && s[i..i + |t|] == t
  }

  /** Contains holds exactly when `t` occurs at some position of `s`. */
  lemma {:induction false} ContainsIffOccurs(s: string, t: string)
    ensures Contains(s, t) <==> exists i :: OccursAt(s, t, i)
  {
    if |t| <= |s| {
      if s[..|t|] == t {
        assert OccursAt(s, t, 0);
      } else {
        ContainsIffOccurs(s[1..], t);
        if exists i :: OccursAt(s, t, i) {
          var i :| OccursAt(s, t, i);
          assert i != 0;
          assert OccursAt(s[1..], t, i - 1);
        }
        if Contains(s[1..], t) {
          var j :| OccursAt(s[1..], t, j);
          assert s[1..][j..j + |t|] == s[j + 1..j + 1 + |t|];
          assert OccursAt(s, t, j + 1);
        }
      }
    }
  }

  // ---------------------------------------------------------------------
  // Integers
  // ---------------------------------------------------------------------

  predicate IsDigit(c: char) {
    '0' <= c <= '9'
  }

  /** Every character is an ASCII decimal digit. */
  predicate AllDigits(ds: string) {
    forall i :: 0 <= i < |ds| ==> IsDigit(ds[i])
  }

  function DigitValue(c: char): nat
    requires IsDigit(c)
  {
    c as int - '0' as int
  }

  /** The number a non-empty string of decimal digits denotes. */
  function DigitsValue(ds: string): nat
    requires AllDigits(ds)
  {
    if ds == [] then 0 else 10 * DigitsValue(ds[..|ds| - 1]) + DigitValue(ds[|ds| - 1])
  }

  /**
   * Int32.TryParse(s) with NumberStyles.Integer and the invariant culture:
   * optional whitespace, an optional '+' or '-', one or more ASCII digits,
   * optional whitespace; None for anything else and for values outside int32.
   */
  function TryParseInt32(s: string): (r: Option<int32>)
  {
    ParseSignedDigits(TrimBy(s, IsNumberWhite))
  }

  /** The number an already trimmed string denotes: an optional sign, then digits only. */
  function ParseSignedDigits(t: string): (r: Option<int32>)
  {
    var negative := t != [] && t[0] == '-';
    var digits := if t != [] && (t[0] == '-' || t[0] == '+') then t[1..] else t;
    if digits == [] || !AllDigits(digits) then None
    else
      var v: int := if negative then -(DigitsValue(digits) as int) else DigitsValue(digits);
      if INT32_MIN <= v <= INT32_MAX then Some(v) else None
  }

  /** Decimal digits of a natural number, with no leading zeros. */
  function NatToDigits(n: nat): (ds: string)
    ensures ds != [] && AllDigits(ds)
  {
    var d := ['0' + ((n % 10) as char)];
    if n < 10 then d else NatToDigits(n / 10) + d
  }

  /** Int32.ToString() in the invariant culture. */
  function FormatInt32(n: int32): string {
    if n < 0 then "-" + NatToDigits(-(n as int)) else NatToDigits(n)
  }

  /** Reading the digits back gives the number. */
  lemma {:induction false} DigitsValueOfNatToDigits(n: nat)
    ensures DigitsValue(NatToDigits(n)) == n
  {
    var ds := NatToDigits(n);
    if n >= 10 {
      DigitsValueOfNatToDigits(n / 10);
      assert ds[..|ds| - 1] == NatToDigits(n / 10);
    }
  }

  /** TryParse inverts ToString on every int32. */
  lemma TryParseFormat(n: int32)
    ensures TryParseInt32(FormatInt32(n)) == Some(n)
  {
    var m: nat := if n < 0 then -(n as int) else n;
    var ds := NatToDigits(m);
    DigitsValueOfNatToDigits(m);
    if n < 0 {
      assert FormatInt32(n) == "-" + ds;
      TryParseNegative(ds);
    } else {
      assert FormatInt32(n) == ds;
      TryParseDigits(ds);
    }
  }

  /** Digits with nothing around them parse to their value when it is in range. */
  lemma TryParseDigits(ds: string)
    requires ds != [] && AllDigits(ds)
    requires DigitsValue(ds) <= INT32_MAX
    ensures TryParseInt32(ds) == Some(DigitsValue(ds))
  {
    TrimByUntouched(ds, IsNumberWhite);
  }

  /** '-' and digits parse to the negated value when it is in range. */
  lemma TryParseNegative(ds: string)
    requires ds != [] && AllDigits(ds)
    requires INT32_MIN <= -(DigitsValue(ds) as int)
    ensures TryParseInt32("-" + ds) == Some(-(DigitsValue(ds) as int))
  {
    var s := "-" + ds;
    assert s[|s| - 1] == ds[|ds| - 1];
    TrimByUntouched(s, IsNumberWhite);
    ParseNegativeDigits(ds);
  }

  lemma ParseNegativeDigits(ds: string)
    requires ds != [] && AllDigits(ds)
    requires INT32_MIN <= -(DigitsValue(ds) as int)
    ensures ParseSignedDigits("-" + ds) == Some(-(DigitsValue(ds) as int))
  {
    assert ("-" + ds)[1..] == ds;
  }
}
