/**
 * String operations the dealership pages rely on: ASCII case mapping,
 * `String.prototype.trim`, `join`, `split`, `includes`, the decimal
 * rendering of an integer, and a lexicographic comparison that stands in
 * for `localeCompare`.
 */
module Text {

  /** `toLowerCase` on one character, over the ASCII alphabet. */
  function LowerChar(c: char): char {
    if 'A' <= c <= 'Z' then (c as int + 32) as char else c
  }

  /** `toUpperCase` on one character, over the ASCII alphabet. */
  function UpperChar(c: char): char {
    if 'a' <= c <= 'z' then (c as int - 32) as char else c
  }

  function Lower(s: string): (r: string)
    ensures |r| == |s|
    ensures forall i :: 0 <= i < |s| ==> r[i] == LowerChar(s[i])
  {
    seq(|s|, i requires 0 <= i < |s| => LowerChar(s[i]))
  }

  /** The characters `trim` strips: ECMAScript WhiteSpace and LineTerminator. */
  predicate IsWhitespace(c: char) {
    || c == '\t' || c == '\n' || c == '\U{B}' || c == '\U{C}' || c == '\r' || c == ' '
    || c == '\U{A0}' || c == '\U{1680}' || ('\U{2000}' <= c <= '\U{200A}')
    || c == '\U{2028}' || c == '\U{2029}' || c == '\U{202F}' || c == '\U{205F}'
    || c == '\U{3000}' || c == '\U{FEFF}'
  }

  /** Number of whitespace characters at the start of `s`. */
  function LeadingSpace(s: string): (k: nat)
    ensures k <= |s|
    ensures forall i :: 0 <= i < k ==> IsWhitespace(s[i])
    ensures k < |s| ==> !IsWhitespace(s[k])
  {
    if s == [] || !IsWhitespace(s[0]) then 0 else 1 + LeadingSpace(s[1..])
  }

  /** Number of whitespace characters at the end of `s`. */
  function TrailingSpace(s: string): (k: nat)
    ensures k <= |s|
    ensures forall i :: |s| - k <= i < |s| ==> IsWhitespace(s[i])
    ensures k < |s| ==> !IsWhitespace(s[|s| - k - 1])
  {
    if s == [] || !IsWhitespace(s[|s| - 1]) then 0 else 1 + TrailingSpace(s[..|s| - 1])
  }

  /** `String.prototype.trim`: the slice of `s` left after stripping
    * whitespace from both ends. */
  function Trim(s: string): (r: string)
    ensures |r| <= |s|
    ensures r == [] || (!IsWhitespace(r[0]) && !IsWhitespace(r[|r| - 1]))
    ensures exists i :: PaddedAt(s, i, |r|) && OccursAt(s, r, i)
  {
    var a := LeadingSpace(s);
    var t := s[a..];
    var r := t[..|t| - TrailingSpace(t)];
    assert r == s[a..a + |r|];
    assert PaddedAt(s, a, |r|) && OccursAt(s, r, a);
    r
  }

  /** `Array.prototype.join(sep)`. */
  function Join(sep: string, parts: seq<string>): string {
    if |parts| == 0 then ""
    else if |parts| == 1 then parts[0]
    else parts[0] + sep + Join(sep, parts[1..])
  }

  /** `String.prototype.split` on a one-character separator: the pieces
    * between separators, empty pieces included. */
  function Split(s: string, sep: char): (r: seq<string>)
    ensures |r| >= 1
    ensures forall k :: 0 <= k < |r| ==> sep !in r[k]
    decreases |s|
  {
    if s == [] then [""]
    else if s[0] == sep then [""] + Split(s[1..], sep)
    else
      var rest := Split(s[1..], sep);
      [[s[0]] + rest[0]] + rest[1..]
  }

  lemma {:induction false} JoinPrepend(sep: string, a: string, x: string, rest: seq<string>)
    ensures Join(sep, [a + x] + rest) == a + Join(sep, [x] + rest)
  {
    if rest != [] {
      assert ([a + x] + rest)[1..] == rest;
      assert ([x] + rest)[1..] == rest;
    }
  }

  /** Joining the pieces of a split with the same separator gives the
    * string back. */
  lemma {:induction false} JoinSplit(s: string, sep: char)
    ensures Join([sep], Split(s, sep)) == s
    decreases |s|
  {
    if s == [] {
    } else if s[0] == sep {
      var rest := Split(s[1..], sep);
      JoinSplit(s[1..], sep);
      assert ([""] + rest)[1..] == rest;
      assert s == [sep] + s[1..];
    } else {
      var rest := Split(s[1..], sep);
      JoinSplit(s[1..], sep);
      assert rest == [rest[0]] + rest[1..];
      JoinPrepend([sep], [s[0]], rest[0], rest[1..]);
      assert s == [s[0]] + s[1..];
    }
  }

  /** `s.includes(q)`: `q` occurs in `s` as a contiguous substring. */
  predicate Contains(s: string, q: string) {
    exists i :: 0 <= i <= |s| - |q| && OccursAt(s, q, i)
  }

  /** `s` holds a slice of length `n` at `i` with only whitespace around it. */
  predicate PaddedAt(s: string, i: int, n: nat) {
    && 0 <= i <= |s| - n
    && (forall k :: 0 <= k < i ==> IsWhitespace(s[k]))
    && (forall k :: i + n <= k < |s| ==> IsWhitespace(s[k]))
  }

  /** `q` occurs in `s` starting at index `i`. */
  predicate OccursAt(s: string, q: string, i: int) {
    0 <= i <= |s| - |q| && s[i..i + |q|] == q
  }

  lemma ContainsSlice(s: string, i: int, j: int)
    requires 0 <= i <= j <= |s|
    ensures Contains(s, s[i..j])
  {
    assert OccursAt(s, s[i..j], i);
  }

  lemma ContainsTransitive(a: string, b: string, c: string)
    requires Contains(a, b) && Contains(b, c)
    ensures Contains(a, c)
  {
    var i :| 0 <= i <= |a| - |b| && OccursAt(a, b, i);
    var j :| 0 <= j <= |b| - |c| && OccursAt(b, c, j);
    assert forall k :: 0 <= k < |c| ==> a[i + j + k] == b[j + k] == c[k];
    assert a[i + j..i + j + |c|] == c;
    assert OccursAt(a, c, i + j);
  }

  lemma ContainsLower(s: string, q: string)
    requires Contains(s, q)
    ensures Contains(Lower(s), Lower(q))
  {
    var i :| 0 <= i <= |s| - |q| && OccursAt(s, q, i);
    assert forall k :: 0 <= k < |q| ==> Lower(s)[i + k] == LowerChar(s[i + k]) == LowerChar(q[k]);
    assert Lower(s)[i..i + |q|] == Lower(q);
    assert OccursAt(Lower(s), Lower(q), i);
  }

  /** Every piece of a join occurs in the joined string. */
  lemma {:induction false} JoinContainsPart(sep: string, parts: seq<string>, k: nat)
    requires k < |parts|
    ensures Contains(Join(sep, parts), parts[k])
  {
    var j := Join(sep, parts);
    if |parts| == 1 {
      ContainsSlice(j, 0, |j|);
      assert j[0..|j|] == j;
    } else if k == 0 {
      assert j == parts[0] + (sep + Join(sep, parts[1..]));
      assert j[0..|parts[0]|] == parts[0];
      ContainsSlice(j, 0, |parts[0]|);
    } else {
      JoinContainsPart(sep, parts[1..], k - 1);
      var tail := Join(sep, parts[1..]);
      assert j == parts[0] + sep + tail;
      ContainsSlice(j, |parts[0] + sep|, |j|);
      assert j[|parts[0] + sep|..|j|] == tail;
      ContainsTransitive(j, tail, parts[k]);
    }
  }

  /** Upper-cases the first character of a piece and leaves the rest
    * unchanged (`charAt(0).toUpperCase() + slice(1)`). */
  function Capitalize(w: string): string {
    if w == [] then [] else [UpperChar(w[0])] + w[1..]
  }

  function CapitalizeAll(ws: seq<string>): (r: seq<string>)
    ensures |r| == |ws|
  {
    if ws == [] then [] else [Capitalize(ws[0])] + CapitalizeAll(ws[1..])
  }

  /** Split on spaces, capitalize each piece, join with spaces. */
  function CapitalizeWords(s: string): string {
    Join(" ", CapitalizeAll(Split(s, ' ')))
  }

  /** Reference definition of word capitalization, one character at a time:
    * a character is upper-cased exactly when it starts the string
    * (`atStart`) or follows a space. */
  function TitleCase(s: string, atStart: bool): (r: string)
    ensures |r| == |s|
    ensures forall i :: 0 <= i < |s| ==>
      r[i] == if (i == 0 && atStart) || (i > 0 && s[i - 1] == ' ') then UpperChar(s[i]) else s[i]
  {
    if s == [] then []
    else [if atStart then UpperChar(s[0]) else s[0]] + TitleCase(s[1..], s[0] == ' ')
  }

  /** The pieces with the first one capitalized only when `atStart`. */
  function CapitalizeFrom(ws: seq<string>, atStart: bool): (r: seq<string>)
    requires |ws| >= 1
    ensures |r| == |ws|
  {
    [if atStart then Capitalize(ws[0]) else ws[0]] + CapitalizeAll(ws[1..])
  }

  /** A leading space closes an empty first piece, capitalized or not. */
  lemma SpaceStep(t: string, atStart: bool)
    ensures CapitalizeFrom(Split([' '] + t, ' '), atStart) == [""] + CapitalizeFrom(Split(t, ' '), true)
  {
    var rest := Split(t, ' ');
    var ws := Split([' '] + t, ' ');
    assert ([' '] + t)[1..] == t;
    assert ws == [""] + rest;
    assert ws[1..] == rest;
  }

  /** A leading non-space character joins the first piece. */
  lemma LetterStep(c: char, t: string, atStart: bool)
    requires c != ' '
    ensures var rest := Split(t, ' ');
      CapitalizeFrom(Split([c] + t, ' '), atStart)
        == [[if atStart then UpperChar(c) else c] + rest[0]] + CapitalizeAll(rest[1..])
  {
    var rest := Split(t, ' ');
    var ws := Split([c] + t, ' ');
    assert ([c] + t)[1..] == t;
    assert ws == [[c] + rest[0]] + rest[1..];
    assert ws[1..] == rest[1..];
    assert Capitalize([c] + rest[0]) == [UpperChar(c)] + rest[0];
  }

  /** Split/capitalize/join agrees with the character-wise reference; with
    * `atStart` false the first piece is left as it is. */
  lemma {:induction false} CapitalizeWordsIsTitleCase(s: string, atStart: bool)
    ensures Join(" ", CapitalizeFrom(Split(s, ' '), atStart)) == TitleCase(s, atStart)
    decreases |s|
  {
    if s != [] {
      var t := s[1..];
      assert s == [s[0]] + t;
      CapitalizeWordsIsTitleCase(t, s[0] == ' ');
      var rest := Split(t, ' ');
      if s[0] == ' ' {
        SpaceStep(t, atStart);
        var tail := CapitalizeFrom(rest, true);
        assert ([""] + tail)[1..] == tail;
      } else {
        LetterStep(s[0], t, atStart);
        JoinPrepend(" ", [if atStart then UpperChar(s[0]) else s[0]], rest[0], CapitalizeAll(rest[1..]));
      }
    }
  }

  lemma CapitalizeWordsTitleCase(s: string)
    ensures CapitalizeWords(s) == TitleCase(s, true)
  {
    var ws := Split(s, ' ');
    CapitalizeWordsIsTitleCase(s, true);
    assert CapitalizeAll(ws) == [Capitalize(ws[0])] + CapitalizeAll(ws[1..]);
  }

  /** Three-way lexicographic comparison of character codes: negative,
    * zero or positive as `a` sorts before, equal to or after `b`. */
  function LexCompare(a: string, b: string): (r: int)
    ensures -1 <= r <= 1
  {
    if a == [] && b == [] then 0
    else if a == [] then -1
    else if b == [] then 1
    else if a[0] < b[0] then -1
    else if a[0] > b[0] then 1
    else LexCompare(a[1..], b[1..])
  }

  lemma {:induction false} LexCompareAntisymmetric(a: string, b: string)
    ensures LexCompare(a, b) == -LexCompare(b, a)
    ensures LexCompare(a, b) == 0 <==> a == b
  {
    if a != [] && b != [] && a[0] == b[0] {
      LexCompareAntisymmetric(a[1..], b[1..]);
      assert a == [a[0]] + a[1..] && b == [b[0]] + b[1..];
    }
  }

  lemma {:induction false} LexCompareTransitive(a: string, b: string, c: string)
    requires LexCompare(a, b) <= 0 && LexCompare(b, c) <= 0
    ensures LexCompare(a, c) <= 0
  {
    if a != [] && b != [] && c != [] && a[0] == b[0] == c[0] {
      LexCompareTransitive(a[1..], b[1..], c[1..]);
    }
  }

  function DigitChar(d: nat): char
    requires d < 10
  {
    "0123456789"[d]
  }

  /** Every character is a decimal digit. */
  predicate Numeral(s: string) {
    forall i :: 0 <= i < |s| ==> '0' <= s[i] <= '9'
  }

  /** The standard decimal form of a natural number: a non-empty string of
    * digits with no leading zero. */
  predicate Decimal(s: string) {
    s != [] && Numeral(s) && (|s| > 1 ==> s[0] != '0')
  }

  /** Decimal rendering of a natural number without leading zeros. */
  function NatString(n: nat): (r: string)
    ensures Decimal(r)
  {
    if n < 10 then [DigitChar(n)] else NatString(n / 10) + [DigitChar(n % 10)]
  }

  /** `String(n)` for an integer-valued number: its decimal digits, after a
    * minus sign when it is negative. */
  function IntString(n: int): (r: string)
    ensures r != []
    ensures n >= 0 ==> Decimal(r) && ParseNat(r) == n
    ensures n < 0 ==> |r| >= 2 && r[0] == '-' && Decimal(r[1..]) && ParseNat(r[1..]) == -n
  {
    if n < 0 then
      ParseNatString(-n);
      var r := "-" + NatString(-n);
      assert r[1..] == NatString(-n);
      r
    else
      ParseNatString(n);
      NatString(n)
  }

  /** The value of a string of decimal digits. */
  function ParseNat(s: string): nat
    requires Numeral(s)
  {
    if s == [] then 0 else 10 * ParseNat(s[..|s| - 1]) + (s[|s| - 1] as int - '0' as int)
  }

  /** The decimal rendering reads back as the same number. */
  lemma {:induction false} ParseNatString(n: nat)
    ensures ParseNat(NatString(n)) == n
  {
    if n >= 10 {
      ParseNatString(n / 10);
      var s := NatString(n);
      assert s[..|s| - 1] == NatString(n / 10);
    }
  }
}
