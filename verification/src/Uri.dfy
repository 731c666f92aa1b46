/** Boa's URIs (boa-0.94.13/src/escape.c, escape.h, buffer.c, util.c): which bytes are escaped,
    escaping and in-place unescaping, and in-place cleaning of path names.
 */
module Uri {
  import opened Text
  import Params

  // ---- Which bytes need escaping

  const MARKS: string := "-_.!~*'():@&=+$,/?"
  const SPECIAL: string := CAPITALS + SMALL + DIGITS + MARKS

  /** NEEDS_ESCAPE_MASK: `1 << k` is an int, and its top bit fills the upper half of a word. */
  function Mask(c: nat): (m: bv64)
    ensures m != 0
  {
    var k := c % 32;
    if k == 31 then 0xFFFF_FFFF_8000_0000 else 1 << k
  }

  lemma MasksDisjoint(c: nat, d: nat)
    requires c < 128 && d < 128 && c / 32 == d / 32 && c != d
    ensures Apart(Mask(c), Mask(d))
  {
    MaskBits(c % 32, d % 32);
  }

  lemma MaskBits(i: nat, j: nat)
    requires i < 32 && j < 32 && i != j
    ensures Mask(i) & Mask(j) == 0
  {
    if i == 31 {
      BitApartFromTop(j);
    } else if j == 31 {
      BitApartFromTop(i);
    } else if i < j {
      BitsApart(i, j);
    } else {
      BitsApart(j, i);
    }
  }

  lemma BitsApart(i: nat, j: nat)
    requires i < j < 31
    ensures (1 as bv64 << i) & (1 as bv64 << j) == 0
  {}

  lemma BitApartFromTop(i: nat)
    requires i < 31
    ensures (1 as bv64 << i) & 0xFFFF_FFFF_8000_0000 == 0
  {}

  const ALL_ONES: bv64 := 0xFFFF_FFFF_FFFF_FFFF

  function Common(a: bv64, b: bv64): bv64 {
    a & b
  }

  predicate Has(word: bv64, mask: bv64) {
    Common(word, mask) != 0
  }

  function Without(word: bv64, mask: bv64): bv64 {
    word & !mask
  }

  lemma AllOnes(mask: bv64)
    requires mask != 0
    ensures Has(ALL_ONES, mask)
  {}

  predicate Apart(a: bv64, b: bv64) {
    a & b == 0
  }

  lemma ClearedOther(word: bv64, clear: bv64, mask: bv64)
    requires Apart(clear, mask)
    ensures Has(Without(word, clear), mask) <==> Has(word, mask)
  {
    AndNot(word, clear, mask);
    hide Common, Without, Apart;
  }

  lemma AndNot(word: bv64, clear: bv64, mask: bv64)
    requires Apart(clear, mask)
    ensures Common(Without(word, clear), mask) == Common(word, mask)
  {}

  lemma ClearedSame(word: bv64, mask: bv64)
    ensures !Has(Without(word, mask), mask)
  {}

  /** `needs_escape`. */
  predicate NeedsEscape(table: seq<bv64>, c: nat)
    requires |table| == 4
  {
    c >= 128 || Has(table[c / 32], Mask(c))
  }

  /** The table agrees with the set of the first `n` special characters. */
  ghost predicate Agrees(table: seq<bv64>, n: nat) {
    && |table| == 4 && n <= |SPECIAL|
    && forall c: nat | c < 128 :: NeedsEscape(table, c) <==> c as char !in SPECIAL[..n]
  }

  /** Clearing the bit of one character leaves the others alone. */
  lemma ClearBit(t: seq<bv64>, j: nat, c: nat)
    requires |t| == 4 && j < 128 && c < 128
    ensures NeedsEscape(t[j / 32 := Without(t[j / 32], Mask(j))], c) <==> NeedsEscape(t, c) && c != j
  {
    hide Mask, Without, Has, Apart;
    if c == j {
      ClearedSame(t[c / 32], Mask(c));
    } else if j / 32 == c / 32 {
      MasksDisjoint(j, c);
      ClearedOther(t[c / 32], Mask(j), Mask(c));
    }
  }

  lemma OneMoreSpecial(t: seq<bv64>, u: seq<bv64>, i: nat)
    requires Agrees(t, i) && i < |SPECIAL|
    requires
      var j := SPECIAL[i] as nat;
      u == if j >= 128 then t else t[j / 32 := Without(t[j / 32], Mask(j))]
    ensures Agrees(u, i + 1)
  {
    var j := SPECIAL[i] as nat;
    forall c: nat | c < 128
      ensures NeedsEscape(u, c) <==> c as char !in SPECIAL[..i + 1]
    {
      TakeOneMore(SPECIAL, i, c as char);
      assert NeedsEscape(t, c) <==> c as char !in SPECIAL[..i];
      hide NeedsEscape, SPECIAL;
      if j < 128 {
        ClearBit(t, j, c);
      }
    }
  }

  lemma TakeOneMore(s: string, i: nat, c: char)
    requires i < |s|
    ensures c in s[..i + 1] <==> c in s[..i] || c == s[i]
  {
    assert s[..i + 1] == s[..i] + [s[i]];
  }

  /** `build_needs_escape`. */
  method BuildNeedsEscape(table: array<bv64>)
    requires table.Length == 4
    modifies table
    ensures Agrees(table[..], |SPECIAL|)
  {
    var w := 0;
    while w < 4
      invariant w <= 4 && forall k | 0 <= k < w :: table[k] == ALL_ONES
    {
      table[w] := ALL_ONES;
      w := w + 1;
    }
    forall c: nat | c < 128
      ensures NeedsEscape(table[..], c)
    {
      AllOnes(Mask(c));
    }
    var i := 0;
    while i < |SPECIAL|
      invariant i <= |SPECIAL| && Agrees(table[..], i)
    {
      var j := SPECIAL[i] as nat;
      ghost var t := table[..];
      if j < 128 {
        table[j / 32] := Without(table[j / 32], Mask(j));
      }
      OneMoreSpecial(t, table[..], i);
      i := i + 1;
    }
    assert SPECIAL[..i] == SPECIAL;
  }

  /** No special character is outside the table, so the table decides for every byte. */
  lemma TableDecides(table: seq<bv64>, c: char)
    requires Agrees(table, |SPECIAL|)
    ensures NeedsEscape(table, c as nat) <==> c !in SPECIAL
  {
    assert SPECIAL[..|SPECIAL|] == SPECIAL;
    UpperIsAscii(c);
    LowerIsAscii(c);
    OthersAreAscii(c);
    hide CAPITALS, SMALL, DIGITS, MARKS;
    assert c in SPECIAL ==> c in CAPITALS || c in SMALL || c in DIGITS || c in MARKS;
    assert c as nat < 128 ==> c as nat as char == c;
  }

  lemma UpperIsAscii(c: char)
    ensures c in CAPITALS ==> 'A' <= c <= 'Z'
  {}

  lemma LowerIsAscii(c: char)
    ensures c in SMALL ==> 'a' <= c <= 'z'
  {}

  lemma OthersAreAscii(c: char)
    ensures c in DIGITS || c in MARKS ==> c <= '~' && c != '%' && c != '#'
  {}

  // ---- Escaping

  /** INT_TO_HEX. */
  function HexDigit(n: nat): char
    requires n < 16
  {
    if n >= 10 then ('A' as int + n - 10) as char else ('0' as int + n) as char
  }

  function Percent(c: char): (s: string)
    requires c as int < 256
    ensures |s| == 3
  {
    ['%', HexDigit(c as int / 16), HexDigit(c as int % 16)]
  }

  predicate Bytes(s: string) {
    forall i | 0 <= i < |s| :: s[i] as int < 256
  }

  function Escape(s: string): (e: string)
    requires Bytes(s)
    ensures |e| <= 3 * |s|
  {
    if s == "" then "" else (if s[0] in SPECIAL then [s[0]] else Percent(s[0])) + Escape(s[1..])
  }

  /** `out` has been written, of what `s` will give. */
  ghost predicate Escaped(all: string, out: string, s: string) {
    Bytes(s) && all == out + Escape(s)
  }

  lemma EscapedStep(all: string, out: string, s: string)
    requires Escaped(all, out, s) && s != ""
    ensures s[0] as int < 256
    ensures Escaped(all, out + if s[0] in SPECIAL then [s[0]] else Percent(s[0]), s[1..])
  {
    hide Percent, SPECIAL;
    var piece := if s[0] in SPECIAL then [s[0]] else Percent(s[0]);
    assert Escape(s) == piece + Escape(s[1..]);
    assert out + (piece + Escape(s[1..])) == out + piece + Escape(s[1..]);
  }

  lemma EscapedAll(all: string, out: string)
    requires Escaped(all, out, "")
    ensures all == out
  {}

  method PutPercent(buf: array<char>, at: nat, c: char) returns (n: nat)
    requires at + 3 < buf.Length && c as int < 256
    modifies buf
    ensures n == at + 3 && buf[..n] == old(buf[..at]) + Percent(c)
  {
    n := at;
    buf[n] := '%';
    n := n + 1;
    buf[n] := HexDigit(c as int / 16);
    n := n + 1;
    buf[n] := HexDigit(c as int % 16);
    n := n + 1;
  }

  /** `escape_string`, into a buffer of the size it asks for; `table` is what
      `build_needs_escape` has left in the global table. */
  method EscapeString(inp: string, buf: array<char>, table: seq<bv64>) returns (n: nat)
    requires Bytes(inp) && NUL !in inp && buf.Length == 3 * |inp| + 1
    requires Agrees(table, |SPECIAL|)
    modifies buf
    ensures n == |Escape(inp)| < buf.Length && buf[..n] == Escape(inp) && buf[n] == NUL
  {
    hide SPECIAL, Percent, Escaped, Escape, Agrees, Bytes;
    ghost var all := Escape(inp);
    var k := 0;
    n := 0;
    EscapedStart(inp);
    assert buf[..n] == "" && inp[k..] == inp;
    while k < |inp|
      invariant k <= |inp| && n <= 3 * k && Escaped(all, buf[..n], inp[k..])
    {
      var c := inp[k];
      ghost var out := buf[..n];
      EscapedStep(all, out, inp[k..]);
      assert inp[k..][1..] == inp[k + 1..] && inp[k..][0] == c;
      var escape := MustEscape(c, table);
      if escape {
        n := PutPercent(buf, n, c);
      } else {
        buf[n] := c;
        n := n + 1;
        assert buf[..n] == out + [c];
      }
      k := k + 1;
    }
    assert inp[k..] == "";
    EscapedAll(all, buf[..n]);
    buf[n] := NUL;
  }

  lemma EscapedStart(s: string)
    requires Bytes(s)
    ensures Escaped(Escape(s), "", s)
  {
    hide Escape, Bytes;
    assert "" + Escape(s) == Escape(s);
  }

  /** The test that the loop makes. */
  method MustEscape(c: char, table: seq<bv64>) returns (escape: bool)
    requires Agrees(table, |SPECIAL|) && c as int < 256 && c != NUL
    ensures escape <==> c !in SPECIAL
  {
    TableDecides(table, c);
    escape := c as nat >= 128 || Has(table[c as nat / 32], Mask(c as nat));
    assert escape <==> NeedsEscape(table, c as nat);
  }

  // ---- Unescaping

  /** A `char` is signed. */
  function Signed(c: char): (n: int)
    ensures c as int < 128 ==> n == c as int
    ensures 128 <= c as int < 256 ==> n + 256 == c as int
  {
    var n := c as int % 256;
    if n < 128 then n else n - 256
  }

  /** One digit of HEX_TO_DECIMAL, for whatever byte is there. */
  function DigitValue(c: char): int {
    var n := Signed(c);
    if n >= 'A' as int then (if n >= 96 then n - 32 else n) - 'A' as int + 10 else n - '0' as int
  }

  function PercentValue(c: char, d: char): char {
    ((DigitValue(c) * 16 + DigitValue(d)) % 256) as char
  }

  datatype Unescaped = Bad | Fine(path: string, query: Option<string>)

  function Prepend(out: string, u: Unescaped): Unescaped {
    match u
    case Bad => Bad
    case Fine(path, query) => Fine(out + path, query)
  }

  function AfterMark(s: string): Option<string> {
    if '?' in s then Some(Params.From(s, '?')[1..]) else None
  }

  /** `unescape_uri`: the path up to a query or a fragment, and the query, if it is asked for. */
  function Unescape(s: string, want: bool): Unescaped
    decreases |s|
  {
    if s == "" then Fine("", None)
    else if s[0] == '%' then
      if |s| < 3 then Bad else Prepend([PercentValue(s[1], s[2])], Unescape(s[3..], want))
    else if s[0] == '?' then Fine("", if want then Some(s[1..]) else None)
    else if s[0] == '#' then Fine("", if want then AfterMark(s[1..]) else None)
    else Prepend([s[0]], Unescape(s[1..], want))
  }

  // ---- Unescaping undoes escaping

  lemma DigitBack(n: nat)
    requires n < 16
    ensures DigitValue(HexDigit(n)) == n
  {}

  lemma PercentBack(c: char)
    requires c as int < 256
    ensures var p := Percent(c); PercentValue(p[1], p[2]) == c
  {
    DigitBack(c as int / 16);
    DigitBack(c as int % 16);
    hide DigitValue, HexDigit;
  }

  /** `e` is a way to write the path `s`: a byte stands for itself unless it has a meaning of its
      own, or is escaped, with digits of either case. */
  ghost predicate Writes(e: string, s: string) {
    if s == "" then e == ""
    else
      || (e != "" && e[0] == s[0] && e[0] !in "%?#" && Writes(e[1..], s[1..]))
      || (EscapedByte(e, s[0]) && Writes(e[3..], s[1..]))
  }

  predicate EscapedByte(e: string, c: char) {
    |e| >= 3 && e[0] == '%' && DigitOf(e[1], c as int / 16) && DigitOf(e[2], c as int % 16)
  }

  lemma EscapedByteValue(e: string, c: char)
    requires EscapedByte(e, c)
    ensures PercentValue(e[1], e[2]) == c
  {
    DigitHasValue(e[1], c as int / 16);
    DigitHasValue(e[2], c as int % 16);
    hide DigitValue, DigitOf;
  }

  lemma DigitHasValue(d: char, n: int)
    requires DigitOf(d, n)
    ensures DigitValue(d) == n && 0 <= n < 16
  {
    ValueOfDigit(n);
    hide HEX_CAPITALS, HEX_SMALL;
  }

  /** Unescaping gives the path back however it was written. */
  lemma {:induction false} UnescapeWritten(e: string, s: string, want: bool)
    requires Writes(e, s)
    ensures Unescape(e, want) == Fine(s, None)
    decreases |s|
  {
    hide PercentValue, EscapedByte;
    if s != "" {
      assert s == [s[0]] + s[1..];
      EscapeStarts(e, s[0]);
      if EscapedByte(e, s[0]) && Writes(e[3..], s[1..]) {
        EscapedByteValue(e, s[0]);
        UnescapeWritten(e[3..], s[1..], want);
      } else {
        UnescapeWritten(e[1..], s[1..], want);
      }
    }
  }

  /** Where a written path ends: at a query, at a fragment, behind which a query may follow, or in
      the middle of an escape. */
  lemma {:induction false} UnescapeEnds(e: string, s: string, rest: string, want: bool)
    requires Writes(e, s) && rest != "" && rest[0] in "%?#" && (rest[0] == '%' ==> |rest| < 3)
    ensures
      Unescape(e + rest, want) ==
        if rest[0] == '%' then Bad
        else if !want then Fine(s, None)
        else if rest[0] == '?' then Fine(s, Some(rest[1..]))
        else Fine(s, AfterMark(rest[1..]))
    decreases |s|
  {
    hide PercentValue, EscapedByte, AfterMark;
    if s == "" {
      assert e + rest == rest;
    } else {
      EscapeStarts(e, s[0]);
      assert (e + rest)[1..] == e[1..] + rest && [s[0]] + s[1..] == s;
      if EscapedByte(e, s[0]) && Writes(e[3..], s[1..]) {
        EscapedByteValue(e, s[0]);
        assert (e + rest)[3..] == e[3..] + rest;
        UnescapeEnds(e[3..], s[1..], rest, want);
      } else {
        UnescapeEnds(e[1..], s[1..], rest, want);
      }
    }
  }

  /** The query is what follows the first question mark. */
  lemma AfterMarkIs(s: string, q: string)
    requires '?' !in s
    ensures AfterMark(s) == None && AfterMark(s + "?" + q) == Some(q)
  {
    var t := s + "?" + q;
    assert t[|s|] == '?' && '?' !in t[..|s|] && t[|s| + 1..] == q;
    MarkAt(t, |s|);
  }

  lemma EscapeStarts(e: string, c: char)
    ensures EscapedByte(e, c) ==> |e| >= 3 && e[0] == '%'
  {}

  /** What `escape_string` leaves as it is: letters, digits and marks; never a byte that would end
      the path, start an escape, or does not print. */
  lemma LeftAsIs(c: char)
    ensures c in CAPITALS || c in SMALL || c in DIGITS ==> c in SPECIAL
    ensures c in SPECIAL ==> 32 < c as int < 127 && c !in "%#\"<>"
  {
    UpperIsAscii(c);
    LowerIsAscii(c);
    OthersAreAscii(c);
    hide CAPITALS, SMALL, DIGITS;
    assert c in SPECIAL <==> c in CAPITALS || c in SMALL || c in DIGITS || c in MARKS;
    MarksPrint(c);
  }

  lemma MarksPrint(c: char)
    ensures c in MARKS || c in DIGITS ==> 32 < c as int < 127 && c !in "%#\"<>"
  {}

  /** The escape of a byte is the standard one. */
  lemma PercentIsEscape(c: char)
    requires c as int < 256
    ensures EscapedByte(Percent(c), c)
  {
    ValueOfDigit(c as int / 16);
    ValueOfDigit(c as int % 16);
    hide HEX_CAPITALS, HEX_SMALL;
  }

  lemma MarksAreSpecial(c: char)
    ensures c == '?' ==> c in SPECIAL
    ensures c == '%' || c == '#' ==> c !in SPECIAL
  {
    UpperIsAscii(c);
    LowerIsAscii(c);
    OthersAreAscii(c);
    QuestionMark();
    hide CAPITALS, SMALL, DIGITS, MARKS;
    assert c in SPECIAL <==> c in CAPITALS || c in SMALL || c in DIGITS || c in MARKS;
  }

  lemma QuestionMark()
    ensures '?' in MARKS
  {
    assert MARKS[17] == '?';
  }

  lemma PlainUnescaped(c: char, rest: string, want: bool)
    requires c !in {'%', '?', '#'}
    ensures Unescape([c] + rest, want) == Prepend([c], Unescape(rest, want))
  {
    assert ([c] + rest)[1..] == rest;
  }

  lemma PercentUnescaped(c: char, rest: string, want: bool)
    requires c as int < 256
    ensures Unescape(Percent(c) + rest, want) == Prepend([c], Unescape(rest, want))
  {
    PercentBack(c);
    var s := Percent(c) + rest;
    assert s[3..] == rest && s[0] == '%' && s[1] == Percent(c)[1] && s[2] == Percent(c)[2];
    hide HexDigit, PercentValue;
  }

  lemma BeforeMark(s: string)
    requires s != "" && s[0] != '?'
    ensures Params.Until(s, '?') == [s[0]] + Params.Until(s[1..], '?')
    ensures Params.From(s, '?') == Params.From(s[1..], '?')
    ensures '?' in s <==> '?' in s[1..]
  {}

  /** What `UnescapeEscape` says of `s`. */
  ghost predicate Undone(s: string, want: bool)
    requires Bytes(s)
  {
    Unescape(Escape(s), want) ==
    Fine(Params.Until(s, '?'), if want && '?' in s then Some(Escape(Params.From(s, '?')[1..])) else None)
  }

  lemma UndoneMore(s: string, want: bool)
    requires Bytes(s) && s != "" && s[0] != '?'
    ensures
      Undone(s[1..], want) && Unescape(Escape(s), want) == Prepend([s[0]], Unescape(Escape(s[1..]), want)) ==>
      Undone(s, want)
  {
    BeforeMark(s);
    hide Unescape, Escape, Params.Until, Params.From;
  }

  /** Escaping and unescaping gives back everything before the first question mark, which is
      left as it is, and what follows it, still escaped, as the query. */
  lemma {:induction false} UnescapeEscape(s: string, want: bool)
    requires Bytes(s)
    ensures Undone(s, want)
  {
    if s != "" {
      MarksAreSpecial(s[0]);
      if s[0] == '?' {
        assert Escape(s) == "?" + Escape(s[1..]);
        assert ("?" + Escape(s[1..]))[1..] == Escape(s[1..]);
      } else {
        if s[0] in SPECIAL {
          PlainUnescaped(s[0], Escape(s[1..]), want);
        } else {
          PercentUnescaped(s[0], Escape(s[1..]), want);
        }
        assert Unescape(Escape(s), want) == Prepend([s[0]], Unescape(Escape(s[1..]), want)) by {
          hide Unescape, SPECIAL, Percent;
        }
        hide *;
        UnescapeEscape(s[1..], want);
        UndoneMore(s, want);
      }
    }
  }

  /** The round trip gives the text back exactly if there is no question mark in it. */
  lemma RoundTrip(s: string, want: bool)
    requires Bytes(s)
    ensures Unescape(Escape(s), want) == Fine(s, None) <==> '?' !in s
    ensures Unescape(Escape(s), want).Fine? && Unescape(Escape(s), want).path <= s
  {
    UnescapeEscape(s, want);
    UntilAll(s);
  }

  lemma {:induction false} UntilAll(s: string)
    ensures Params.Until(s, '?') == s <==> '?' !in s
  {
    if s != "" && s[0] != '?' {
      BeforeMark(s);
      UntilAll(s[1..]);
      assert s == [s[0]] + s[1..];
      assert Params.Until(s, '?') == s ==> Params.Until(s, '?')[1..] == s[1..];
    }
  }

  /** `out` has been written, of what `s` will give. */
  ghost predicate Decoding(all: Unescaped, out: string, s: string, want: bool) {
    all == Prepend(out, Unescape(s, want))
  }

  lemma DecodingStep(all: Unescaped, out: string, s: string, want: bool)
    requires Decoding(all, out, s, want)
    ensures
      if s == "" then all == Fine(out, None)
      else if s[0] == '%' then
        if |s| < 3 then all == Bad else Decoding(all, out + [PercentValue(s[1], s[2])], s[3..], want)
      else if s[0] == '?' then all == Fine(out, if want then Some(s[1..]) else None)
      else if s[0] == '#' then all == Fine(out, if want then AfterMark(s[1..]) else None)
      else Decoding(all, out + [s[0]], s[1..], want)
  {
    hide PercentValue, AfterMark;
    if s == "" || s[0] == '?' || s[0] == '#' {
      assert out + "" == out;
    } else if s[0] == '%' {
      if |s| >= 3 {
        PrependTwice(out, [PercentValue(s[1], s[2])], Unescape(s[3..], want));
      }
    } else {
      PrependTwice(out, [s[0]], Unescape(s[1..], want));
    }
  }

  lemma PrependTwice(a: string, b: string, u: Unescaped)
    ensures Prepend(a, Prepend(b, u)) == Prepend(a + b, u)
  {
    if u.Fine? {
      assert a + (b + u.path) == a + b + u.path;
    }
  }

  /** A C string in an array. */
  ghost predicate Holds(a: seq<char>, n: nat, s: string) {
    n == |s| < |a| && a[..n] == s && a[n] == NUL && NUL !in s
  }

  /** The state of a loop that rewrites the string `s` in place: up to `to` it is rewritten, from
      `from` on it is as it was. */
  ghost predicate Reading(a: seq<char>, s: string, dst: nat, src: nat) {
    && dst <= src <= |s| < |a| && NUL !in s && a[|s|] == NUL && a[src..|s|] == s[src..]
  }

  lemma ReadingAt(a: seq<char>, s: string, dst: nat, src: nat, k: nat)
    requires Reading(a, s, dst, src) && src <= k <= |s|
    ensures a[k] == if k < |s| then s[k] else NUL
    ensures (a[k] == NUL <==> k == |s|) && a[k..|s|] == s[k..]
  {
    assert forall i | src <= i < |s| :: a[i] == a[src..|s|][i - src] == s[src..][i - src];
  }

  /** One character is written, and the reading goes on at `next`. */
  lemma ReadingPut(a: seq<char>, b: seq<char>, s: string, dst: nat, src: nat, next: nat)
    requires Reading(a, s, dst, src) && src < next <= |s|
    requires |b| == |a| && b == a[dst := b[dst]]
    ensures Reading(b, s, dst + 1, next) && b[..dst + 1] == a[..dst] + [b[dst]]
  {
    ReadingAt(a, s, dst, src, next);
  }

  /** What the string in `a` and the query index amount to. */
  ghost predicate Result(all: Unescaped, a: seq<char>, n: nat, ok: bool, query: Option<nat>)
    requires n < |a|
  {
    match all
    case Bad => !ok
    case Fine(path, q) =>
      && ok && |path| <= n && a[..|path|] == path && a[|path|] == NUL
      && match query
         case None => q == None
         case Some(k) => |path| < k <= n && q == Some(a[k..n]) && a[n] == NUL
  }

  /** `unescape_uri` on the string of `n` bytes in `a`; `query` is where the query starts. */
  method UnescapeUri(a: array<char>, n: nat, want: bool) returns (ok: bool, query: Option<nat>)
    requires n < a.Length && Holds(a[..], n, a[..n])
    modifies a
    ensures Result(Unescape(old(a[..n]), want), a[..], n, ok, query)
  {
    ghost var s := a[..n];
    ghost var all := Unescape(s, want);
    var uri, uriOld := 0, 0;
    assert s[0..] == s;
    assert Decoding(all, a[..uri], s[uriOld..], want) by {
      if all.Fine? {
        assert "" + all.path == all.path;
      }
    }
    hide Decoding, Unescape, Result;
    while a[uriOld] != NUL
      invariant Reading(a[..], s, uri, uriOld) && Decoding(all, a[..uri], s[uriOld..], want)
      decreases n - uriOld
    {
      ReadingAt(a[..], s, uri, uriOld, uriOld);
      if a[uriOld] == '%' {
        ok := DecodePercent(a, uri, uriOld, s, all, want);
        if !ok {
          ResultBad(a[..], n);
          return false, None;
        }
        uri, uriOld := uri + 1, uriOld + 3;
      } else if a[uriOld] == '?' || a[uriOld] == '#' {
        query := Finish(a, n, uri, uriOld, s, all, want);
        return true, query;
      } else {
        CopyByte(a, uri, uriOld, s, all, want);
        uri, uriOld := uri + 1, uriOld + 1;
      }
    }
    ReadingAt(a[..], s, uri, uriOld, uriOld);
    DecodingStep(all, a[..uri], s[uriOld..], want);
    ghost var path := a[..uri];
    a[uri] := NUL;
    ok, query := true, None;
    ResultFine(path, None, a[..], n, None);
  }

  lemma ResultBad(a: seq<char>, n: nat)
    requires n < |a|
    ensures Result(Bad, a, n, false, None)
  {}

  lemma ResultFine(path: string, q: Option<string>, a: seq<char>, n: nat, query: Option<nat>)
    requires |path| <= n < |a| && a[..|path|] == path && a[|path|] == NUL
    requires
      match query
      case None => q == None
      case Some(k) => |path| < k <= n && q == Some(a[k..n]) && a[n] == NUL
    ensures Result(Fine(path, q), a, n, true, query)
  {}

  /** The case of a percent sign. */
  method DecodePercent(a: array<char>, uri: nat, uriOld: nat, ghost s: string, ghost all: Unescaped, want: bool)
    returns (ok: bool)
    requires Reading(a[..], s, uri, uriOld) && uriOld < |s| && s[uriOld] == '%'
    requires Decoding(all, a[..uri], s[uriOld..], want)
    modifies a
    ensures
      if ok then
        && uriOld + 3 <= |s| && Reading(a[..], s, uri + 1, uriOld + 3)
        && Decoding(all, a[..uri + 1], s[uriOld + 3..], want)
      else all == Bad
  {
    DecodingStep(all, a[..uri], s[uriOld..], want);
    ReadingAt(a[..], s, uri, uriOld, uriOld + 1);
    hide Decoding, PercentValue;
    var c := a[uriOld + 1];
    if c == NUL {
      return false;
    }
    ReadingAt(a[..], s, uri, uriOld, uriOld + 2);
    var d := a[uriOld + 2];
    if d == NUL {
      return false;
    }
    ghost var was := a[..];
    assert s[uriOld..][1] == c && s[uriOld..][2] == d && s[uriOld..][3..] == s[uriOld + 3..];
    a[uri] := PercentValue(c, d);
    ReadingPut(was, a[..], s, uri, uriOld, uriOld + 3);
    ok := true;
  }

  /** The case of any other byte. */
  method CopyByte(a: array<char>, uri: nat, uriOld: nat, ghost s: string, ghost all: Unescaped, want: bool)
    requires Reading(a[..], s, uri, uriOld) && uriOld < |s| && s[uriOld] !in {'%', '?', '#'}
    requires Decoding(all, a[..uri], s[uriOld..], want)
    modifies a
    ensures Reading(a[..], s, uri + 1, uriOld + 1) && Decoding(all, a[..uri + 1], s[uriOld + 1..], want)
  {
    DecodingStep(all, a[..uri], s[uriOld..], want);
    ReadingAt(a[..], s, uri, uriOld, uriOld);
    hide Decoding;
    ghost var was := a[..];
    assert s[uriOld..][1..] == s[uriOld + 1..];
    a[uri] := a[uriOld];
    ReadingPut(was, a[..], s, uri, uriOld, uriOld + 1);
  }

  /** The cases of a query and of a fragment. */
  method Finish(a: array<char>, n: nat, uri: nat, uriOld: nat, ghost s: string, ghost all: Unescaped, want: bool)
    returns (query: Option<nat>)
    requires Reading(a[..], s, uri, uriOld) && uriOld < |s| == n && (s[uriOld] == '?' || s[uriOld] == '#')
    requires Decoding(all, a[..uri], s[uriOld..], want)
    modifies a
    ensures Result(all, a[..], n, true, query)
  {
    DecodingStep(all, a[..uri], s[uriOld..], want);
    ReadingAt(a[..], s, uri, uriOld, uriOld);
    ReadingAt(a[..], s, uri, uriOld, uriOld + 1);
    hide Decoding, AfterMark, Result, Reading;
    assert s[uriOld..][1..] == s[uriOld + 1..] == a[uriOld + 1..n];
    query := None;
    if want {
      if a[uriOld] == '?' {
        query := Some(uriOld + 1);
      } else {
        query := FindQuery(a, uriOld + 1, n);
      }
    }
    Terminate(a, uri, n, query);
  }

  /** The path gets its NUL; the query stays behind it. */
  method Terminate(a: array<char>, uri: nat, n: nat, query: Option<nat>)
    requires uri < n < a.Length && a[n] == NUL && (query.Some? ==> uri < query.value <= n)
    modifies a
    ensures
      Result(Fine(old(a[..uri]), if query.Some? then Some(old(a[query.value..n])) else None), a[..], n, true, query)
  {
    ghost var path, q := a[..uri], if query.Some? then Some(a[query.value..n]) else None;
    a[uri] := NUL;
    assert a[..uri] == path && (query.Some? ==> q == Some(a[query.value..n]));
    ResultFine(path, q, a[..], n, query);
  }

  /** Behind a fragment there may still be a query. */
  method FindQuery(a: array<char>, from: nat, n: nat) returns (query: Option<nat>)
    requires from <= n < a.Length && a[n] == NUL && NUL !in a[from..n]
    ensures
      match query
      case None => AfterMark(a[from..n]) == None
      case Some(k) => from < k <= n && AfterMark(a[from..n]) == Some(a[k..n])
  {
    hide AfterMark;
    ghost var s := a[from..n];
    query := None;
    var k := from;
    while a[k] != NUL
      invariant from <= k <= n && '?' !in s[..k - from]
      decreases n - k
    {
      assert a[k] == s[k - from];
      if a[k] == '?' {
        MarkAt(s, k - from);
        assert s[k - from + 1..] == a[k + 1..n];
        return Some(k + 1);
      }
      k := k + 1;
    }
    assert k == n;
    NoMark(s);
  }

  lemma NoMark(s: string)
    requires '?' !in s
    ensures AfterMark(s) == None
  {}

  lemma {:induction false} MarkAt(s: string, k: nat)
    requires k < |s| && s[k] == '?' && '?' !in s[..k]
    ensures AfterMark(s) == Some(s[k + 1..])
  {
    if k > 0 {
      assert s[0] == s[..k][0] && s[1..][..k - 1] == s[..k][1..];
      MarkAt(s[1..], k - 1);
      BeforeMark(s);
    }
  }

  // ---- Cleaning path names

  /** What must not follow a slash. */
  predicate Redundant(s: string) {
    "/" <= s || "./" <= s || "../" <= s
  }

  /** The length of the first redundant piece. */
  function Piece(s: string): (k: nat)
    ensures k <= |s| && (k > 0 <==> Redundant(s))
  {
    if |s| >= 1 && s[0] == '/' then 1
    else if |s| >= 2 && s[0] == '.' && s[1] == '/' then 2
    else if |s| >= 3 && s[0] == '.' && s[1] == '.' && s[2] == '/' then 3
    else 0
  }

  function SkipRedundant(s: string): (r: string)
    ensures |r| <= |s| && !Redundant(r)
    ensures !Redundant(s) ==> r == s
    ensures forall c | c in r :: c in s
  {
    if Piece(s) == 0 then s else SkipRedundant(s[Piece(s)..])
  }

  /** `clean_pathname`. */
  function Clean(s: string): (r: string)
    ensures |r| <= |s| && (s != "" ==> r != "" && r[0] == s[0])
    decreases |s|
  {
    if s == "" then ""
    else if s[0] == '/' then "/" + Clean(SkipRedundant(s[1..]))
    else [s[0]] + Clean(s[1..])
  }

  /** No slash is followed by a slash or by a complete "." or ".." component. */
  predicate Neat(s: string) {
    forall i | 0 <= i < |s| && s[i] == '/' :: !Redundant(s[i + 1..])
  }

  lemma NeatCons(c: char, s: string)
    ensures Neat([c] + s) <==> Neat(s) && (c == '/' ==> !Redundant(s))
  {
    var t := [c] + s;
    assert forall i | 0 <= i <= |s| :: t[i + 1..] == s[i..];
    assert s[0..] == s;
    if Neat(t) {
      assert t[0] == c;
      forall i | 0 <= i < |s| && s[i] == '/'
        ensures !Redundant(s[i + 1..])
      {
        var j := i + 1;
        assert t[j] == '/' && t[j + 1..] == s[j..];
      }
    }
    if Neat(s) && (c == '/' ==> !Redundant(s)) {
      forall i | 0 <= i < |t| && t[i] == '/'
        ensures !Redundant(t[i + 1..])
      {
        if i > 0 {
          assert s[i - 1] == '/';
        }
      }
    }
  }

  /** Cleaning does not make the start of a text redundant. */
  lemma CleanStart(s: string)
    requires !Redundant(s)
    ensures !Redundant(Clean(s))
  {
    if |s| > 0 && s[0] == '.' {
      var t := s[1..];
      assert Clean(s) == [s[0]] + Clean(t);
      if |t| > 0 && t[0] == '.' {
        assert Clean(t) == [t[0]] + Clean(t[1..]);
      }
    }
  }

  /** The result is neat. */
  lemma {:induction false} CleanIsNeat(s: string)
    ensures Neat(Clean(s))
    decreases |s|
  {
    if s != "" {
      if s[0] == '/' {
        var rest := SkipRedundant(s[1..]);
        CleanIsNeat(rest);
        CleanStart(rest);
        NeatCons('/', Clean(rest));
      } else {
        CleanIsNeat(s[1..]);
        NeatCons(s[0], Clean(s[1..]));
      }
    }
  }

  /** Neat text is left alone. */
  lemma {:induction false} NeatIsKept(s: string)
    requires Neat(s)
    ensures Clean(s) == s
  {
    if s != "" {
      assert s == [s[0]] + s[1..];
      NeatCons(s[0], s[1..]);
      NeatIsKept(s[1..]);
    }
  }

  /** Cleaning changes exactly the text that is not neat, and once is enough. */
  lemma CleanFixes(s: string)
    ensures Clean(s) == s <==> Neat(s)
    ensures Clean(Clean(s)) == Clean(s)
  {
    CleanIsNeat(s);
    NeatIsKept(Clean(s));
    if Neat(s) {
      NeatIsKept(s);
    }
  }

  // ---- Only redundant pieces are removed, in any order

  /** `s` without the redundant piece behind the slash at `i`. */
  function Deleted(s: string, i: nat): string
    requires i < |s|
  {
    s[..i + 1] + s[i + 1 + Piece(s[i + 1..])..]
  }

  predicate RedundantAt(s: string, i: nat) {
    i < |s| && s[i] == '/' && Redundant(s[i + 1..])
  }

  lemma DeletedBehind(s: string, i: nat, k: nat)
    requires RedundantAt(s, i) && k <= i
    ensures RedundantAt(s[k..], i - k) && Deleted(s[k..], i - k) == Deleted(s, i)[k..]
  {
    assert s[k..][i - k + 1..] == s[i + 1..];
    assert s[k..][..i - k + 1] + s[i + 1 + Piece(s[i + 1..])..] == Deleted(s, i)[k..];
    assert s[k..][i - k + 1 + Piece(s[i + 1..])..] == s[i + 1 + Piece(s[i + 1..])..];
  }

  /** A piece ends at the first slash. */
  lemma SamePiece(s: string, i: nat)
    requires RedundantAt(s, i)
    ensures Piece(s) <= i + 1 && Piece(Deleted(s, i)) == Piece(s)
  {
    var t := Deleted(s, i);
    assert forall j | 0 <= j <= i :: t[j] == s[j];
  }

  lemma AtTheSlash(s: string, i: nat)
    requires RedundantAt(s, i)
    ensures SkipRedundant(s[i + 1..]) == SkipRedundant(Deleted(s, i)[i + 1..])
  {
    var b := s[i + 1..];
    assert Deleted(s, i)[i + 1..] == b[Piece(b)..];
  }

  /** A deletion does not change what cleaning gives. */
  lemma {:induction false} DeletionKeeps(s: string, i: nat)
    requires RedundantAt(s, i)
    ensures Clean(Deleted(s, i)) == Clean(s)
    decreases i, 0
  {
    hide Redundant, SkipRedundant;
    var t := Deleted(s, i);
    assert t[0] == s[0];
    if i == 0 {
      AtTheSlash(s, 0);
    } else {
      DeletedBehind(s, i, 1);
      if s[0] == '/' {
        SkipKeeps(s[1..], i - 1);
      } else {
        DeletionKeeps(s[1..], i - 1);
      }
    }
  }

  lemma {:induction false} SkipKeeps(s: string, i: nat)
    requires RedundantAt(s, i)
    ensures Clean(SkipRedundant(Deleted(s, i))) == Clean(SkipRedundant(s))
    decreases i, 1
  {
    hide Redundant, Clean;
    var k := Piece(s);
    SamePiece(s, i);
    if k == 0 {
      DeletionKeeps(s, i);
    } else if k == i + 1 {
      AtTheSlash(s, i);
    } else {
      DeletedBehind(s, i, k);
      SkipKeeps(s[k..], i - k);
    }
  }

  predicate Deletes(s: string, t: string) {
    exists i | 0 <= i < |s| :: RedundantAt(s, i) && t == Deleted(s, i)
  }

  predicate Deletions(chain: seq<string>) {
    chain != [] && forall j | 0 <= j < |chain| - 1 :: Deletes(chain[j], chain[j + 1])
  }

  /** Whatever pieces are deleted, in whatever order: if the end is neat, it is the clean text. */
  lemma {:induction false} AnyOrder(chain: seq<string>)
    requires Deletions(chain) && Neat(chain[|chain| - 1])
    ensures chain[|chain| - 1] == Clean(chain[0])
  {
    hide Neat;
    if |chain| == 1 {
      NeatIsKept(chain[0]);
    } else {
      var rest := chain[1..];
      assert Deletions(rest) && Deletes(chain[0], chain[1]);
      AnyOrder(rest);
      var i :| 0 <= i < |chain[0]| && RedundantAt(chain[0], i) && chain[1] == Deleted(chain[0], i);
      DeletionKeeps(chain[0], i);
    }
  }

  /** And there is such an order. */
  lemma {:induction false} ByDeletions(s: string) returns (chain: seq<string>)
    ensures Deletions(chain) && chain[0] == s && chain[|chain| - 1] == Clean(s)
    decreases |s|
  {
    hide Clean, Neat, RedundantAt, Deleted, Deletes;
    if Neat(s) {
      NeatIsKept(s);
      chain := [s];
    } else {
      var i := Untidy(s);
      DeletionKeeps(s, i);
      Shorter(s, i);
      var rest := ByDeletions(Deleted(s, i));
      chain := [s] + rest;
      Preceded(s, i, rest);
    }
  }

  lemma Untidy(s: string) returns (i: nat)
    requires !Neat(s)
    ensures RedundantAt(s, i)
  {
    i :| 0 <= i < |s| && s[i] == '/' && Redundant(s[i + 1..]);
  }

  lemma Preceded(s: string, i: nat, rest: seq<string>)
    requires RedundantAt(s, i) && Deletions(rest) && rest[0] == Deleted(s, i)
    ensures Deletions([s] + rest) && ([s] + rest)[|rest|] == rest[|rest| - 1]
  {
    hide Deleted, Redundant;
    assert Deletes(s, rest[0]);
  }

  lemma Shorter(s: string, i: nat)
    requires RedundantAt(s, i)
    ensures |Deleted(s, i)| < |s|
  {}

  /** `out` has been written, of what `s` will give. */
  ghost predicate Cleaning(all: string, out: string, s: string) {
    all == out + Clean(s)
  }

  lemma CleaningStep(all: string, out: string, s: string)
    requires Cleaning(all, out, s)
    ensures
      if s == "" then all == out
      else if s[0] == '/' then Cleaning(all, out + "/", SkipRedundant(s[1..]))
      else Cleaning(all, out + [s[0]], s[1..])
  {
    hide SkipRedundant;
    if s == "" {
      assert out + "" == out;
    } else if s[0] == '/' {
      var rest := Clean(SkipRedundant(s[1..]));
      assert out + ("/" + rest) == out + "/" + rest;
    } else {
      assert out + ([s[0]] + Clean(s[1..])) == out + [s[0]] + Clean(s[1..]);
    }
  }

  lemma PieceAt(a: seq<char>, p: nat, n: nat)
    requires p <= n < |a| && a[n] == NUL && NUL !in a[p..n]
    ensures Piece(a[p..n]) ==
            if a[p] == '/' then 1
            else if a[p] == '.' && a[p + 1] == '/' then 2
            else if a[p] == '.' && a[p + 1] == '.' && a[p + 2] == '/' then 3
            else 0
  {
    hide Redundant;
    assert forall i | p <= i < n :: a[p..n][i - p] == a[i];
  }

  /** The inner loop: past everything that is redundant. */
  method Skip(a: array<char>, from: nat, n: nat) returns (p: nat)
    requires from <= n < a.Length && a[n] == NUL && NUL !in a[from..n]
    ensures from <= p <= n && a[p..n] == SkipRedundant(a[from..n])
  {
    p := from;
    hide Redundant, Piece, SkipRedundant;
    while true
      invariant from <= p <= n && NUL !in a[p..n] && SkipRedundant(a[from..n]) == SkipRedundant(a[p..n])
      decreases n - p
    {
      PieceAt(a[..], p, n);
      SkipOne(a[..], p, n);
      if a[p] == '/' {
        p := p + 1;
      } else if a[p] == '.' && a[p + 1] == '/' {
        p := p + 2;
      } else if a[p] == '.' && a[p + 1] == '.' && a[p + 2] == '/' {
        p := p + 3;
      } else {
        break;
      }
    }
  }

  lemma SkipOne(a: seq<char>, p: nat, n: nat)
    requires p <= n <= |a|
    ensures
      var k := Piece(a[p..n]);
      p + k <= n && SkipRedundant(a[p..n]) == if k == 0 then a[p..n] else SkipRedundant(a[p + k..n])
  {
    hide Piece;
    assert a[p..n][Piece(a[p..n])..] == a[p + Piece(a[p..n])..n];
  }

  /** `clean_pathname` on the string of `n` bytes in `a`. */
  method CleanPathname(a: array<char>, n: nat)
    requires n < a.Length && Holds(a[..], n, a[..n])
    modifies a
    ensures Holds(a[..], |Clean(old(a[..n]))|, Clean(old(a[..n])))
  {
    ghost var s := a[..n];
    ghost var all := Clean(s);
    var cleanpath, pathname := 0, 0;
    assert s[0..] == s && Cleaning(all, a[..0], s[0..]);
    CleanHasNoNul(s);
    hide Cleaning, Clean;
    while a[pathname] != NUL
      invariant Reading(a[..], s, cleanpath, pathname) && Cleaning(all, a[..cleanpath], s[pathname..])
      decreases n - pathname
    {
      ReadingAt(a[..], s, cleanpath, pathname, pathname);
      CleaningStep(all, a[..cleanpath], s[pathname..]);
      assert s[pathname..][1..] == s[pathname + 1..];
      ghost var was, start := a[..], pathname;
      var c := a[pathname];
      pathname := pathname + 1;
      ReadingAt(a[..], s, cleanpath, start, pathname);
      if c == '/' {
        pathname := Skip(a, pathname, n);
        ReadingAt(a[..], s, cleanpath, start, pathname);
        c := '/';
      }
      a[cleanpath] := c;
      ReadingPut(was, a[..], s, cleanpath, start, pathname);
      cleanpath := cleanpath + 1;
    }
    ReadingAt(a[..], s, cleanpath, pathname, pathname);
    CleaningStep(all, a[..cleanpath], s[pathname..]);
    a[cleanpath] := NUL;
    assert a[..cleanpath] == all;
  }

  lemma {:induction false} CleanHasNoNul(s: string)
    requires NUL !in s
    ensures NUL !in Clean(s)
    decreases |s|
  {
    if s != "" {
      CleanHasNoNul(if s[0] == '/' then SkipRedundant(s[1..]) else s[1..]);
    }
  }
}
