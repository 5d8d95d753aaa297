/**
 The parts of Rust's `str` that the engine's command building and response
 parsing rely on: `contains`, `split` with a string pattern, `split_whitespace`,
 `parse::<i32>` and decimal formatting of unsigned integers.
 */
module Text {
  import opened Wrappers

  // ---------------------------------------------------------------------------
  // Searching
  // ---------------------------------------------------------------------------

  /** `pat` occurs in `s` starting at index `i`. */
  predicate OccursAt(s: string, pat: string, i: nat) {
    i + |pat| <= |s| && s[i..i + |pat|] == pat
  }

  /** The leftmost occurrence of `pat` in `s` at or after `start`, as `str::find` searches. */
  function FindFrom(s: string, pat: string, start: nat): (r: Option<nat>)
    ensures r.Some? ==> start <= r.value && r.value + |pat| <= |s|
    decreases |s| - start
  {
    if start + |pat| > |s| then None
    else if s[start..start + |pat|] == pat then Some(start)
    else FindFrom(s, pat, start + 1)
  }

  /** `FindFrom` finds the leftmost occurrence at or after `start`, and finds none only when there is none. */
  lemma {:induction false} FindFromIsLeftmost(s: string, pat: string, start: nat)
    ensures FindFrom(s, pat, start).Some? ==>
      var i := FindFrom(s, pat, start).value;
      start <= i && OccursAt(s, pat, i) && forall j: nat :: start <= j < i ==> !OccursAt(s, pat, j)
    ensures FindFrom(s, pat, start).None? ==> forall j: nat :: start <= j ==> !OccursAt(s, pat, j)
    decreases |s| - start
  {
    if start + |pat| <= |s| && s[start..start + |pat|] != pat {
      FindFromIsLeftmost(s, pat, start + 1);
    }
  }

  /** `str::find`: the leftmost occurrence of `pat` in `s`. */
  function Find(s: string, pat: string): Option<nat> {
    FindFrom(s, pat, 0)
  }

  /** `str::contains`. */
  function Contains(s: string, pat: string): bool {
    Find(s, pat).Some?
  }

  /** `Contains` holds exactly when `pat` occurs somewhere in `s`. */
  lemma ContainsIffOccurs(s: string, pat: string)
    ensures Contains(s, pat) <==> exists i: nat :: OccursAt(s, pat, i)
  {
    FindFromIsLeftmost(s, pat, 0);
  }

  /**
   The piece at index 1 of `s.split(pat).collect()` for a non-empty `pat`: the
   text between the first occurrence of `pat` and the next one after it (or the
   end of `s`). `None` when the split yields a single piece.
   */
  function SecondPiece(s: string, pat: string): (r: Option<string>)
    requires pat != []
    ensures r.Some? <==> Contains(s, pat)
  {
    match Find(s, pat)
    case None => None
    case Some(i) =>
      var rest := s[i + |pat|..];
      match Find(rest, pat)
      case None => Some(rest)
      case Some(j) => Some(rest[..j])
  }

  /** An occurrence in a prefix is an occurrence in the whole, inside the prefix. */
  lemma OccursInPrefix(s: string, pat: string, n: nat, k: nat)
    requires n <= |s| && OccursAt(s[..n], pat, k)
    ensures OccursAt(s, pat, k) && k + |pat| <= n
  {
    assert s[..n][k..k + |pat|] == s[k..k + |pat|];
  }

  /** A second piece holds no occurrence of `pat`. */
  lemma SecondPieceHasNoPattern(s: string, pat: string)
    requires pat != [] && Contains(s, pat)
    ensures !Contains(SecondPiece(s, pat).value, pat)
  {
    var i := Find(s, pat).value;
    var rest := s[i + |pat|..];
    var piece := SecondPiece(s, pat).value;
    FindFromIsLeftmost(rest, pat, 0);
    ContainsIffOccurs(piece, pat);
    if Find(rest, pat).Some? {
      var j := Find(rest, pat).value;
      assert piece == rest[..j];
      forall k: nat | OccursAt(piece, pat, k) ensures false {
        OccursInPrefix(rest, pat, j, k);
      }
    }
  }

  /** An occurrence in a suffix is an occurrence in the whole, shifted by where the suffix starts. */
  lemma OccursInSuffix(s: string, pat: string, a: nat, j: nat)
    requires a <= |s| && OccursAt(s[a..], pat, j)
    ensures OccursAt(s, pat, a + j)
  {
    assert s[a..][j..j + |pat|] == s[a + j..a + j + |pat|];
  }

  /** A second piece ends at the end of `s` or where the next occurrence of `pat` begins. */
  lemma SecondPieceEnd(s: string, pat: string)
    requires pat != [] && Contains(s, pat)
    ensures var i := Find(s, pat).value;
      i + |pat| + |SecondPiece(s, pat).value| == |s| || OccursAt(s, pat, i + |pat| + |SecondPiece(s, pat).value|)
  {
    var i := Find(s, pat).value;
    var rest := s[i + |pat|..];
    var piece := SecondPiece(s, pat).value;
    FindFromIsLeftmost(rest, pat, 0);
    if Find(rest, pat).Some? {
      var j := Find(rest, pat).value;
      assert piece == rest[..j];
      OccursInSuffix(s, pat, i + |pat|, j);
    } else {
      assert piece == rest;
    }
  }

  /**
   A second piece starts right after the first occurrence of `pat` in `s` and
   ends at the end of `s` or where the next occurrence begins.
   */
  lemma SecondPieceFollowsFirst(s: string, pat: string)
    requires pat != [] && Contains(s, pat)
    ensures var piece := SecondPiece(s, pat).value;
      exists i: nat :: OccursAt(s, pat, i) && (forall j: nat :: j < i ==> !OccursAt(s, pat, j))
                       && i + |pat| + |piece| <= |s| && s[i + |pat|..i + |pat| + |piece|] == piece
                       && (i + |pat| + |piece| == |s| || OccursAt(s, pat, i + |pat| + |piece|))
  {
    var i := Find(s, pat).value;
    FindFromIsLeftmost(s, pat, 0);
    var rest := s[i + |pat|..];
    var piece := SecondPiece(s, pat).value;
    assert piece == rest[..|piece|];
    assert s[i + |pat|..i + |pat| + |piece|] == piece;
    SecondPieceEnd(s, pat);
  }

  /** With no occurrence of `pat` before `|pre|`, the first one is the `pat` that follows `pre`. */
  lemma FindAfterPrefix(pre: string, pat: string, t: string)
    requires forall k: nat :: k < |pre| ==> !OccursAt(pre + pat + t, pat, k)
    ensures Find(pre + pat + t, pat) == Some(|pre|)
  {
    var s := pre + pat + t;
    assert s[|pre|..|pre| + |pat|] == pat;
    assert OccursAt(s, pat, |pre|);
    FindFromIsLeftmost(s, pat, 0);
  }

  /** When none of the first `n + 1` characters of `t` can begin `pat`, no occurrence starts there. */
  lemma FindPastStart(t: string, pat: string, n: nat)
    requires pat != [] && n < |t|
    requires forall k :: 0 <= k <= n ==> t[k] != pat[0]
    ensures Find(t, pat).Some? ==> Find(t, pat).value > n
  {
    FindFromIsLeftmost(t, pat, 0);
    if Find(t, pat).Some? {
      var j := Find(t, pat).value;
      assert t[j..j + |pat|][0] == pat[0];
    }
  }

  /**
   When the first occurrence of `pat` comes right after `pre` and is followed
   by a word `w` and a space, none of which can begin `pat`, the second piece
   begins with `w` and that space.
   */
  lemma SecondPieceStartsWith(pre: string, pat: string, w: string, rest: string)
    requires pat != [] && pat[0] != ' '
    requires forall c :: c in w ==> c != pat[0]
    requires forall k: nat :: k < |pre| ==> !OccursAt(pre + pat + w + " " + rest, pat, k)
    ensures var s := pre + pat + w + " " + rest;
      Contains(s, pat) && |SecondPiece(s, pat).value| > |w| && SecondPiece(s, pat).value[..|w| + 1] == w + " "
  {
    var s := pre + pat + w + " " + rest;
    var t := w + " " + rest;
    assert s == pre + pat + t;
    FindAfterPrefix(pre, pat, t);
    assert s[|pre| + |pat|..] == t;
    forall k | 0 <= k <= |w| ensures t[k] != pat[0] {
      if k < |w| {
        assert t[k] == w[k] && w[k] in w;
      }
    }
    FindPastStart(t, pat, |w|);
    assert t[..|w| + 1] == w + " ";
    var piece := SecondPiece(s, pat).value;
    assert piece == t || (Find(t, pat).Some? && piece == t[..Find(t, pat).value]);
  }

  // ---------------------------------------------------------------------------
  // Whitespace splitting
  // ---------------------------------------------------------------------------

  /** `char::is_whitespace`: the characters with Unicode's White_Space property. */
  predicate IsWhitespace(c: char) {
    ('\t' <= c <= '\r') || c == ' ' || c == '\U{85}' || c == '\U{A0}' || c == '\U{1680}'
    || ('\U{2000}' <= c <= '\U{200A}') || c == '\U{2028}' || c == '\U{2029}'
    || c == '\U{202F}' || c == '\U{205F}' || c == '\U{3000}'
  }

  predicate NoWhitespace(s: string) {
    forall k :: 0 <= k < |s| ==> !IsWhitespace(s[k])
  }

  /** The number of leading characters of `s` that are not whitespace. */
  function TokenLength(s: string): (n: nat)
    ensures n <= |s|
    ensures forall k :: 0 <= k < n ==> !IsWhitespace(s[k])
    ensures n < |s| ==> IsWhitespace(s[n])
  {
    if s == [] || IsWhitespace(s[0]) then 0 else 1 + TokenLength(s[1..])
  }

  /** `s.split_whitespace().collect()`: the maximal runs of non-whitespace characters, in order. */
  function Tokens(s: string): (ts: seq<string>)
    ensures forall t :: t in ts ==> t != [] && NoWhitespace(t)
    decreases |s|
  {
    if s == [] then []
    else if IsWhitespace(s[0]) then Tokens(s[1..])
    else
      var n := TokenLength(s);
      [s[..n]] + Tokens(s[n..])
  }

  /** The characterisation of `TokenLength` in its ensures determines it. */
  lemma TokenLengthUnique(s: string, k: nat)
    requires k <= |s|
    requires forall j :: 0 <= j < k ==> !IsWhitespace(s[j])
    requires k < |s| ==> IsWhitespace(s[k])
    ensures TokenLength(s) == k
  {
  }

  /** A single word splits into itself. */
  lemma TokensOfWord(w: string)
    requires w != [] && NoWhitespace(w)
    ensures Tokens(w) == [w]
  {
    TokenLengthUnique(w, |w|);
    assert w[..|w|] == w;
    assert w[|w|..] == [];
  }

  /** A whitespace character ends the leading token. */
  lemma {:induction false} TokenLengthSeparated(a: string, c: char, b: string)
    requires IsWhitespace(c)
    ensures TokenLength(a + [c] + b) == TokenLength(a)
    decreases |a|
  {
    var s := a + [c] + b;
    if a == [] {
      assert s[0] == c;
    } else {
      assert s[0] == a[0];
      if !IsWhitespace(a[0]) {
        assert s[1..] == a[1..] + [c] + b;
        TokenLengthSeparated(a[1..], c, b);
      }
    }
  }

  /** One unfolding of `Tokens` on a string that starts with a word. */
  lemma TokensOfWordStart(s: string)
    requires s != [] && !IsWhitespace(s[0])
    ensures Tokens(s) == [s[..TokenLength(s)]] + Tokens(s[TokenLength(s)..])
  {
  }

  /** A whitespace character separates the tokens on its two sides. */
  lemma {:induction false} TokensSeparated(a: string, c: char, b: string)
    requires IsWhitespace(c)
    ensures Tokens(a + [c] + b) == Tokens(a) + Tokens(b)
    decreases |a|
  {
    var s := a + [c] + b;
    if a == [] {
      assert s[0] == c && s[1..] == b;
    } else if IsWhitespace(a[0]) {
      assert s[0] == a[0] && s[1..] == a[1..] + [c] + b;
      TokensSeparated(a[1..], c, b);
    } else {
      var n := TokenLength(a);
      var rest := a[n..];
      TokensSeparated(rest, c, b);
      TokensAfterWord(a, c, b, n);
    }
  }

  /** The step of `TokensSeparated` when `a` starts with a word of length `n`. */
  lemma TokensAfterWord(a: string, c: char, b: string, n: nat)
    requires IsWhitespace(c) && a != [] && !IsWhitespace(a[0]) && n == TokenLength(a)
    requires Tokens(a[n..] + [c] + b) == Tokens(a[n..]) + Tokens(b)
    ensures Tokens(a + [c] + b) == Tokens(a) + Tokens(b)
  {
    TokensSplitAtWord(a, c, b, n);
    TokensOfWordStart(a);
  }

  /** The leading word of `a` is also the leading word of `a + [c] + b`. */
  lemma TokensSplitAtWord(a: string, c: char, b: string, n: nat)
    requires IsWhitespace(c) && a != [] && !IsWhitespace(a[0]) && n == TokenLength(a)
    ensures Tokens(a + [c] + b) == [a[..n]] + Tokens(a[n..] + [c] + b)
  {
    var s := a + [c] + b;
    assert s[0] == a[0];
    TokenLengthSeparated(a, c, b);
    TokensOfWordStart(s);
    SliceAfterWord(a, c, b, n);
  }

  lemma SliceAfterWord(a: string, c: char, b: string, n: nat)
    requires n <= |a|
    ensures (a + [c] + b)[..n] == a[..n]
    ensures (a + [c] + b)[n..] == a[n..] + [c] + b
  {
  }

  /** Words joined by single spaces split back into those words. */
  lemma TokensOfSpaced(w: string, b: string)
    requires w != [] && NoWhitespace(w)
    ensures Tokens(w + " " + b) == [w] + Tokens(b)
  {
    TokensSeparated(w, ' ', b);
    TokensOfWord(w);
  }

  /** Two words and a tail joined by single spaces split into the words and the tail's tokens. */
  lemma TokensOfThreeWordsPrefix(a: string, b: string, rest: string)
    requires a != [] && NoWhitespace(a)
    requires b != [] && NoWhitespace(b)
    ensures Tokens(a + " " + b + " " + rest) == [a, b] + Tokens(rest)
  {
    assert a + " " + b + " " + rest == a + " " + (b + " " + rest);
    TokensOfSpaced(a, b + " " + rest);
    TokensOfSpaced(b, rest);
  }

  /** Three words joined by single spaces split back into those words. */
  lemma TokensOfThreeWords(a: string, b: string, c: string)
    requires a != [] && NoWhitespace(a)
    requires b != [] && NoWhitespace(b)
    requires c != [] && NoWhitespace(c)
    ensures Tokens(a + " " + b + " " + c) == [a, b, c]
  {
    assert a + " " + b + " " + c == a + " " + (b + " " + c);
    TokensOfSpaced(a, b + " " + c);
    TokensOfSpaced(b, c);
    TokensOfWord(c);
  }

  // ---------------------------------------------------------------------------
  // Decimal numbers
  // ---------------------------------------------------------------------------

  const I32Min: int := -0x8000_0000
  const I32Max: int := 0x7fff_ffff

  predicate IsDigit(c: char) {
    '0' <= c <= '9'
  }

  predicate AllDigits(s: string) {
    forall k :: 0 <= k < |s| ==> IsDigit(s[k])
  }

  function DigitValue(c: char): nat
    requires IsDigit(c)
  {
    (c as int) - ('0' as int)
  }

  function DigitChar(d: nat): (c: char)
    requires d < 10
    ensures IsDigit(c) && DigitValue(c) == d
  {
    ('0' as int + d) as char
  }

  /** The value of a string of decimal digits, most significant first. */
  function DigitsValue(ds: string): nat
    requires AllDigits(ds)
    decreases |ds|
  {
    if ds == [] then 0 else DigitsValue(ds[..|ds| - 1]) * 10 + DigitValue(ds[|ds| - 1])
  }

  /** `{}` formatting of an unsigned integer: its decimal digits, without leading zeros. */
  function NatToString(n: nat): (s: string)
    ensures s != [] && AllDigits(s) && NoWhitespace(s)
    ensures |s| > 1 ==> s[0] != '0'
    decreases n
  {
    if n < 10 then [DigitChar(n)] else NatToString(n / 10) + [DigitChar(n % 10)]
  }

  /** Formatting a number and reading its digits back gives the number again. */
  lemma {:induction false} NatToStringValue(n: nat)
    ensures DigitsValue(NatToString(n)) == n
    decreases n
  {
    var s := NatToString(n);
    if n < 10 {
      assert s[..|s| - 1] == [];
    } else {
      NatToStringValue(n / 10);
      assert s[..|s| - 1] == NatToString(n / 10);
    }
  }

  /**
   `str::parse::<i32>`: an optional `+` or `-`, then at least one ASCII digit
   and nothing else, with a value inside the 32-bit signed range.
   */
  function ParseI32(s: string): (r: Option<int>)
    ensures r.Some? ==> I32Min <= r.value <= I32Max
    ensures r.Some? ==> s != [] && (r.value < 0 ==> s[0] == '-') && (s[0] == '-' ==> r.value <= 0)
  {
    if s == [] then None
    else
      var negative := s[0] == '-';
      var digits := if s[0] == '-' || s[0] == '+' then s[1..] else s;
      if digits == [] || !AllDigits(digits) then None
      else
        var magnitude: int := DigitsValue(digits);
        var v: int := if negative then -magnitude else magnitude;
        if I32Min <= v <= I32Max then Some(v) else None
  }

  /** A string whose last character is not a digit does not parse: `parse::<i32>` accepts only digits after the sign. */
  lemma ParseI32RejectsNonDigitEnd(s: string)
    requires s != [] && !IsDigit(s[|s| - 1])
    ensures ParseI32(s) == None
  {
    var digits := if s[0] == '-' || s[0] == '+' then s[1..] else s;
    if digits != [] {
      assert digits[|digits| - 1] == s[|s| - 1];
    }
  }

  /** No character of a digit string is the non-digit `c`. */
  lemma DigitsAvoid(ds: string, c: char)
    requires AllDigits(ds) && !IsDigit(c)
    ensures forall x :: x in ds ==> x != c
  {
    forall x | x in ds ensures x != c {
      var k :| 0 <= k < |ds| && ds[k] == x;
    }
  }

  /** A minus sign and a digit string: no whitespace, and no character is the non-digit `c` other than `-`. */
  lemma SignedDigitsShape(ds: string, c: char)
    requires ds != [] && AllDigits(ds) && NoWhitespace(ds) && !IsDigit(c) && c != '-'
    ensures "-" + ds != [] && NoWhitespace("-" + ds)
    ensures forall x :: x in "-" + ds ==> x != c
  {
    var w := "-" + ds;
    DigitsAvoid(ds, c);
    forall k | 0 <= k < |w| ensures !IsWhitespace(w[k]) && w[k] != c {
      if k > 0 {
        assert w[k] == ds[k - 1];
        assert ds[k - 1] in ds;
      }
    }
  }

  /** `parse::<i32>` reads back every in-range number written in decimal, with or without a minus sign. */
  lemma ParseI32OfDecimal(n: nat)
    ensures n <= I32Max ==> ParseI32(NatToString(n)) == Some(n)
    ensures n <= -I32Min ==> ParseI32("-" + NatToString(n)) == Some(-(n as int))
  {
    var s := NatToString(n);
    NatToStringValue(n);
    assert ('-' as int) < ('0' as int) && ('+' as int) < ('0' as int);
    assert s[0] != '-' && s[0] != '+';
    var t := "-" + s;
    assert t[1..] == s;
  }
}
