/** Bytes, C character classes and the searches shared by the models.

    A C `char` is a Dafny `char`; a NUL-terminated C string is the text before its NUL.
    Where a value above 255 or a sign would matter, the module that cares says so.
 */
module Text {

  datatype Option<+T> = None | Some(value: T)

  const NUL: char := '\0'
  const CR: char := '\r'
  const LF: char := '\n'

  function Min(a: int, b: int): (m: int)
    ensures m <= a && m <= b && (m == a || m == b)
  {
    if a < b then a else b
  }

  function Max(a: int, b: int): (m: int)
    ensures a <= m && b <= m && (m == a || m == b)
  {
    if a < b then b else a
  }

  /** `isspace` in the C locale. */
  predicate IsSpace(c: char) {
    c == ' ' || 9 <= c as int <= 13
  }

  predicate IsAlpha(c: char) {
    'A' <= c <= 'Z' || 'a' <= c <= 'z'
  }

  /** `isalnum` in the C locale. */
  predicate IsAlnum(c: char) {
    IsAlpha(c) || '0' <= c <= '9'
  }

  lemma SpacesAre(c: char)
    ensures IsSpace(c) <==> c in " \t\n\r" || c == 11 as char || c == 12 as char
  {}

  function ToLower(c: char): char {
    if 'A' <= c <= 'Z' then (c as int + 32) as char else c
  }

  const CAPITALS: string := "ABCDEFGHIJKLMNOPQRSTUVWXYZ"
  const SMALL: string := "abcdefghijklmnopqrstuvwxyz"

  /** The same character, or the two cases of one letter. */
  predicate AnyCase(c: char, d: char) {
    c == d || exists j | 0 <= j < 26 :: (c == CAPITALS[j] && d == SMALL[j]) || (c == SMALL[j] && d == CAPITALS[j])
  }

  predicate SameAnyCase(s: string, t: string) {
    |s| == |t| && forall i | 0 <= i < |s| :: AnyCase(s[i], t[i])
  }

  lemma LetterAt(j: nat)
    requires j < 26
    ensures CAPITALS[j] == ('A' as int + j) as char && SMALL[j] == ('a' as int + j) as char
  {
    assert j == 0 || j == 1 || j == 2 || j == 3 || j == 4 || j == 5 || j == 6 || j == 7 || j == 8 || j == 9
        || j == 10 || j == 11 || j == 12 || j == 13 || j == 14 || j == 15 || j == 16 || j == 17 || j == 18
        || j == 19 || j == 20 || j == 21 || j == 22 || j == 23 || j == 24 || j == 25;
  }

  const DIGITS: string := "0123456789"

  lemma AlnumsAre(c: char)
    ensures IsAlnum(c) <==> c in CAPITALS || c in SMALL || c in DIGITS
  {
    hide CAPITALS, SMALL, DIGITS;
    CapitalsAre(c);
    SmallAre(c);
    DigitsAre(c);
  }

  lemma CapitalsAre(c: char)
    ensures c in CAPITALS <==> 'A' <= c <= 'Z'
  {
    if 'A' <= c <= 'Z' {
      LetterAt(c as int - 'A' as int);
    }
  }

  lemma SmallAre(c: char)
    ensures c in SMALL <==> 'a' <= c <= 'z'
  {
    if 'a' <= c <= 'z' {
      LetterAt(c as int - 'a' as int);
    }
  }

  lemma DigitsAre(c: char)
    ensures c in DIGITS <==> '0' <= c <= '9'
  {}

  const HEX_CAPITALS: string := "0123456789ABCDEF"
  const HEX_SMALL: string := "0123456789abcdef"

  /** The digit `n`, in either case. */
  predicate DigitOf(c: char, n: int) {
    0 <= n < 16 && (c == HEX_CAPITALS[n] || c == HEX_SMALL[n])
  }

  lemma ValueOfDigit(n: int)
    ensures 0 <= n < 10 ==> HEX_CAPITALS[n] == HEX_SMALL[n] == (n + '0' as int) as char
    ensures 10 <= n < 16 ==>
      HEX_CAPITALS[n] == (n - 10 + 'A' as int) as char && HEX_SMALL[n] == (n - 10 + 'a' as int) as char
  {
    if 0 <= n < 16 {
      assert n == 0 || n == 1 || n == 2 || n == 3 || n == 4 || n == 5 || n == 6 || n == 7
          || n == 8 || n == 9 || n == 10 || n == 11 || n == 12 || n == 13 || n == 14 || n == 15;
    }
  }

  /** The C string that starts a buffer: everything before the first NUL. */
  function CString(s: string): (r: string)
    ensures r <= s && NUL !in r
    ensures |r| < |s| ==> s[|r|] == NUL
  {
    if s == [] || s[0] == NUL then [] else [s[0]] + CString(s[1..])
  }

  lemma {:induction false} CStringOfPlain(s: string, tail: string)
    requires NUL !in s
    requires tail == [] || tail[0] == NUL
    ensures CString(s + tail) == s
  {
    if s == [] {
      assert s + tail == tail;
    } else {
      assert (s + tail)[1..] == s[1..] + tail;
      CStringOfPlain(s[1..], tail);
    }
  }

  /** Where `w` first occurs in `s`. */
  function First(w: string, s: string): (r: Option<nat>)
    ensures r.Some? ==> r.value + |w| <= |s| && s[r.value..][..|w|] == w
    ensures r.Some? ==> forall i: nat | i < r.value :: !(w <= s[i..])
  {
    if |s| < |w| then None
    else if w <= s then Some(0)
    else if s == [] then None
    else
      match First(w, s[1..])
      case None => None
      case Some(k) =>
        assert forall i: nat | 0 < i <= k :: s[i..] == s[1..][i - 1..];
        Some(k + 1)
  }

  /** `First` misses nothing: an occurrence anywhere makes it succeed, no later than there. */
  lemma {:induction false} FirstComplete(w: string, s: string, i: nat)
    requires i <= |s| && w <= s[i..]
    ensures First(w, s).Some? && First(w, s).value <= i
  {
    if i > 0 && !(w <= s) {
      assert s[i..] == s[1..][i - 1..];
      FirstComplete(w, s[1..], i - 1);
    }
  }

  lemma FirstUnique(w: string, s: string, k: nat)
    requires k <= |s| && w <= s[k..]
    requires forall i: nat | i < k :: !(w <= s[i..])
    ensures First(w, s) == Some(k)
  {
    FirstComplete(w, s, k);
    var j := First(w, s).value;
    assert s[j..][..|w|] <= s[j..];
  }
}
