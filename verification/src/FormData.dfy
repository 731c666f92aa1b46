/** Forms in the encoding application/x-www-form-urlencoded (web/cgic/cgic.c; section 17.13.4.1
    of HTML 4.01): splitting into pairs, decoding, and that decoding undoes every encoding.
 */
module FormData {
  import opened Text

  datatype EscapeState = Rest | First | Second

  /** A pair of C strings. */
  datatype Pair = Pair(attr: string, value: string)

  /** `cgiHexValue`, with zero for what is no digit. For a negative `char` the source reads in
      front of the table; `wild` stands for what is there. */
  function HexValue(c: char, wild: char -> int): int {
    if '0' <= c <= '9' then c as int - '0' as int
    else if 'A' <= c <= 'F' then c as int - 'A' as int + 10
    else if 'a' <= c <= 'f' then c as int - 'a' as int + 10
    else if c as int < 128 then 0
    else wild(c)
  }

  /** A value stored into a `char`. */
  function Byte(n: int): (c: char)
    ensures c as int < 256
  {
    (n % 256) as char
  }

  function Unescaped(s: string, st: EscapeState, high: int, wild: char -> int): string {
    if s == "" then ""
    else
      match st
      case Rest =>
        if s[0] == '%' then Unescaped(s[1..], First, high, wild)
        else if s[0] == '+' then " " + Unescaped(s[1..], Rest, high, wild)
        else [s[0]] + Unescaped(s[1..], Rest, high, wild)
      case First => Unescaped(s[1..], Second, HexValue(s[0], wild) * 16, wild)
      case Second =>
        var value := high + HexValue(s[0], wild);
        [Byte(value)] + Unescaped(s[1..], Rest, value, wild)
  }

  /** What an encoded string stands for, once it is a C string. */
  function Decoded(s: string, wild: char -> int): string {
    CString(Unescaped(s, Rest, 0, wild))
  }

  // ---- Encodings

  /** `e` is one of the encodings of `s`: a character stands for itself unless it is special, a
      space may be a plus, and everything may be two hexadecimal digits of either case. */
  ghost predicate Encodes(e: string, s: string) {
    if s == "" then e == ""
    else
      || (AsItself(e, s[0]) && Encodes(e[1..], s[1..]))
      || (AsPlus(e, s[0]) && Encodes(e[1..], s[1..]))
      || (AsEscape(e, s[0]) && Encodes(e[3..], s[1..]))
  }

  predicate AsItself(e: string, c: char) {
    e != "" && e[0] == c && e[0] !in "%+&="
  }

  predicate AsPlus(e: string, c: char) {
    e != "" && e[0] == '+' && c == ' '
  }

  predicate AsEscape(e: string, c: char) {
    |e| >= 3 && e[0] == '%' && DigitOf(e[1], c as int / 16) && DigitOf(e[2], c as int % 16)
  }

  lemma {:induction false} EncodesDecodes(e: string, s: string, high: int, wild: char -> int)
    requires Encodes(e, s)
    ensures Unescaped(e, Rest, high, wild) == s
    decreases |s|
  {
    hide *;
    if s != "" {
      FirstEncoded(e, s, wild);
      if e[0] == '%' {
        EscapeDecodes(e, high, wild);
        EncodesDecodes(e[3..], s[1..], HexValue(e[1], wild) * 16 + HexValue(e[2], wild), wild);
      } else {
        PlainDecodes(e, high, wild);
        EncodesDecodes(e[1..], s[1..], high, wild);
      }
    } else {
      NothingEncoded(e, high, wild);
    }
  }

  lemma NothingEncoded(e: string, high: int, wild: char -> int)
    requires Encodes(e, "")
    ensures Unescaped(e, Rest, high, wild) == ""
  {}

  lemma FirstEncoded(e: string, s: string, wild: char -> int)
    requires Encodes(e, s) && s != ""
    ensures e != "" && s == [s[0]] + s[1..]
    ensures
      if e[0] == '%' then
        |e| >= 3 && Byte(HexValue(e[1], wild) * 16 + HexValue(e[2], wild)) == s[0] && Encodes(e[3..], s[1..])
      else s[0] == (if e[0] == '+' then ' ' else e[0]) && Encodes(e[1..], s[1..])
  {
    hide AsItself, AsPlus, AsEscape, HexValue, Byte;
    assert s == [s[0]] + s[1..];
    FirstCharacter(e, s[0]);
    EscapeOf(e, s[0], wild);
  }

  lemma FirstCharacter(e: string, c: char)
    ensures AsItself(e, c) ==> e != "" && e[0] == c && e[0] != '%' && e[0] != '+'
    ensures AsPlus(e, c) ==> e != "" && e[0] == '+' && c == ' '
  {}

  lemma EscapeOf(e: string, c: char, wild: char -> int)
    ensures AsEscape(e, c) ==>
      |e| >= 3 && e[0] == '%' && Byte(HexValue(e[1], wild) * 16 + HexValue(e[2], wild)) == c
  {
    hide HexValue, DigitOf;
    if AsEscape(e, c) {
      DigitIsAscii(e[1], c as int / 16);
      DigitIsAscii(e[2], c as int % 16);
      DigitsAgree(e[1], c as int / 16, wild);
      DigitsAgree(e[2], c as int % 16, wild);
    }
  }

  /** The table has the value of every digit, and zero for every other character of ASCII. */
  lemma DigitsAgree(c: char, n: int, wild: char -> int)
    requires c as int < 128
    ensures DigitOf(c, n) ==> HexValue(c, wild) == n && 0 <= n < 16
    ensures (forall m | 0 <= m < 16 :: !DigitOf(c, m)) ==> HexValue(c, wild) == 0
  {
    ValueOfDigit(n);
    var m := HexValue(c, wild);
    ValueOfDigit(m);
    assert m != 0 ==> DigitOf(c, m);
  }

  lemma DigitIsAscii(c: char, n: int)
    requires DigitOf(c, n)
    ensures c as int < 128
  {
    ValueOfDigit(n);
  }

  lemma PlainDecodes(e: string, high: int, wild: char -> int)
    requires e != "" && e[0] != '%'
    ensures
      Unescaped(e, Rest, high, wild) == [if e[0] == '+' then ' ' else e[0]] + Unescaped(e[1..], Rest, high, wild)
  {
    assert " " == [' '];
  }

  lemma EscapeDecodes(e: string, high: int, wild: char -> int)
    requires |e| >= 3 && e[0] == '%'
    ensures
      var value := HexValue(e[1], wild) * 16 + HexValue(e[2], wild);
      Unescaped(e, Rest, high, wild) == [Byte(value)] + Unescaped(e[3..], Rest, value, wild)
  {
    hide HexValue, Byte;
    var h := HexValue(e[1], wild) * 16;
    assert e[1..][1..] == e[2..] && e[2..][1..] == e[3..];
    assert Unescaped(e[1..], First, high, wild) == Unescaped(e[2..], Second, h, wild);
  }

  /** An escape that is not complete is dropped. */
  lemma {:induction false} UnfinishedDropped(e: string, s: string, tail: string, high: int, wild: char -> int)
    requires Encodes(e, s) && 1 <= |tail| <= 2 && tail[0] == '%'
    ensures Unescaped(e + tail, Rest, high, wild) == s
    decreases |s|
  {
    hide Encodes, HexValue;
    if s == "" {
      NothingEncoded(e, high, wild);
      NothingIsEmpty(e);
      assert e + tail == tail;
      OnlyUnfinished(tail, high, wild);
    } else {
      FirstEncoded(e, s, wild);
      if e[0] == '%' {
        EscapeDecodes(e + tail, high, wild);
        assert (e + tail)[3..] == e[3..] + tail;
        UnfinishedDropped(e[3..], s[1..], tail, HexValue(e[1], wild) * 16 + HexValue(e[2], wild), wild);
      } else {
        PlainDecodes(e + tail, high, wild);
        assert (e + tail)[1..] == e[1..] + tail;
        UnfinishedDropped(e[1..], s[1..], tail, high, wild);
      }
    }
  }

  lemma OnlyUnfinished(tail: string, high: int, wild: char -> int)
    requires 1 <= |tail| <= 2 && tail[0] == '%'
    ensures Unescaped(tail, Rest, high, wild) == ""
  {
    assert Unescaped(tail, Rest, high, wild) == Unescaped(tail[1..], First, high, wild);
    if |tail| == 2 {
      assert tail[1..][1..] == "";
    }
  }

  lemma NothingIsEmpty(e: string)
    requires Encodes(e, "")
    ensures e == ""
  {}

  /** No separator is left in an encoding. */
  lemma {:induction false} EncodesPlain(e: string, s: string)
    requires Encodes(e, s)
    ensures '=' !in e && '&' !in e
    decreases |s|
  {
    if s != "" {
      if e[0] == '%' {
        EncodesPlain(e[3..], s[1..]);
        assert e == e[..3] + e[3..] && e[..3] == [e[0], e[1], e[2]];
      } else {
        EncodesPlain(e[1..], s[1..]);
        assert e == [e[0]] + e[1..];
      }
    }
  }

  /** `data` is an encoding of the list of pairs: `name=value`, joined by ampersands. */
  ghost predicate EncodesForm(data: string, pairs: seq<Pair>)
    decreases |pairs|
  {
    if pairs == [] then data == ""
    else
      exists n, v, rest :: EncodesPair(data, n, v, rest, pairs)
        && (if |pairs| == 1 then rest == "" else rest != "" && rest[0] == '&' && EncodesForm(rest[1..], pairs[1..]))
  }

  ghost predicate EncodesPair(data: string, n: string, v: string, rest: string, pairs: seq<Pair>)
    requires pairs != []
  {
    data == n + ("=" + (v + rest)) && Encodes(n, pairs[0].attr) && Encodes(v, pairs[0].value)
  }

  // ---- Splitting

  function Find(s: string, c: char): (k: nat)
    ensures k <= |s| && c !in s[..k] && (k < |s| ==> s[k] == c)
  {
    if s == "" || s[0] == c then 0
    else
      var k := Find(s[1..], c);
      assert s[..k + 1] == [s[0]] + s[1..][..k];
      k + 1
  }

  lemma {:induction false} FindIs(s: string, c: char, t: string)
    requires c !in s && (t == "" || t[0] == c)
    ensures Find(s + t, c) == |s|
  {
    if s == "" {
      assert s + t == t;
    } else {
      assert (s + t)[1..] == s[1..] + t;
      FindIs(s[1..], c, t);
    }
  }

  /** The pairs of a form: up to the next '=', and from there up to the next '&'. */
  function Pairs(data: string, wild: char -> int): seq<Pair>
    decreases |data|
  {
    var eq := Find(data, '=');
    if eq == |data| then []
    else
      var v := data[eq + 1..];
      var amp := Find(v, '&');
      var pair := Pair(Decoded(data[..eq], wild), Decoded(v[..amp], wild));
      if amp == |v| then [pair] else [pair] + Pairs(v[amp + 1..], wild)
  }

  predicate Storable(pairs: seq<Pair>) {
    forall p | p in pairs :: NUL !in p.attr && NUL !in p.value
  }

  /** Decoding undoes every encoding of every list of pairs of C strings. */
  lemma {:induction false} PairsInvert(data: string, pairs: seq<Pair>, wild: char -> int)
    requires EncodesForm(data, pairs) && Storable(pairs)
    ensures Pairs(data, wild) == pairs
    decreases |pairs|
  {
    hide *;
    if pairs == [] {
      NoPairs(data, wild);
    } else {
      var n, v, rest := FirstPair(data, pairs);
      OnePair(data, n, v, rest, pairs[0], wild);
      if |pairs| > 1 {
        PairsInvert(rest[1..], pairs[1..], wild);
      }
      assert pairs == [pairs[0]] + pairs[1..];
    }
  }

  /** What follows the last ampersand without an equals sign is no pair. */
  lemma {:induction false} JunkIgnored(data: string, pairs: seq<Pair>, junk: string, wild: char -> int)
    requires EncodesForm(data, pairs) && Storable(pairs) && pairs != [] && '=' !in junk
    ensures Pairs(data + ("&" + junk), wild) == pairs
    decreases |pairs|
  {
    hide *;
    var tail := "&" + junk;
    var n, v, rest := FirstPair(data, pairs);
    OneMoreBehind(n, v, rest, tail);
    OnePair(data + tail, n, v, rest + tail, pairs[0], wild);
    if |pairs| > 1 {
      JunkIgnored(rest[1..], pairs[1..], junk, wild);
      assert (rest + tail)[1..] == rest[1..] + tail;
    } else {
      JunkIsNone(junk, wild);
      assert ("" + tail)[1..] == junk;
    }
    assert pairs == [pairs[0]] + pairs[1..];
  }

  lemma OneMoreBehind(n: string, v: string, rest: string, tail: string)
    ensures n + ("=" + (v + rest)) + tail == n + ("=" + (v + (rest + tail)))
  {}

  lemma {:induction false} JunkIsNone(junk: string, wild: char -> int)
    requires '=' !in junk
    ensures Pairs(junk, wild) == []
  {
    FindIs(junk, '=', "");
    assert junk + "" == junk;
  }

  lemma NoPairs(data: string, wild: char -> int)
    requires EncodesForm(data, [])
    ensures Pairs(data, wild) == []
  {}

  lemma FirstPair(data: string, pairs: seq<Pair>) returns (n: string, v: string, rest: string)
    requires EncodesForm(data, pairs) && Storable(pairs) && pairs != []
    ensures data == n + ("=" + (v + rest)) && Encodes(n, pairs[0].attr) && Encodes(v, pairs[0].value)
    ensures NUL !in pairs[0].attr && NUL !in pairs[0].value && Storable(pairs[1..])
    ensures if |pairs| == 1 then rest == "" else rest != "" && rest[0] == '&' && EncodesForm(rest[1..], pairs[1..])
  {
    hide Encodes;
    n, v, rest :| EncodesPair(data, n, v, rest, pairs)
      && (if |pairs| == 1 then rest == "" else rest != "" && rest[0] == '&' && EncodesForm(rest[1..], pairs[1..]));
  }

  lemma OnePair(data: string, n: string, v: string, rest: string, p: Pair, wild: char -> int)
    requires data == n + ("=" + (v + rest)) && Encodes(n, p.attr) && Encodes(v, p.value)
    requires rest == "" || rest[0] == '&'
    requires NUL !in p.attr && NUL !in p.value
    ensures Pairs(data, wild) == if rest == "" then [p] else [p] + Pairs(rest[1..], wild)
  {
    EncodingDecoded(n, p.attr, wild);
    EncodingDecoded(v, p.value, wild);
    CutAt(n, '=', "=" + (v + rest));
    assert ("=" + (v + rest))[1..] == v + rest;
    CutAt(v, '&', rest);
    hide Encodes, Decoded, Find;
  }

  lemma CutAt(s: string, c: char, t: string)
    requires c !in s && (t == "" || t[0] == c)
    ensures Find(s + t, c) == |s| && (s + t)[..|s|] == s
    ensures t != "" ==> (s + t)[|s| + 1..] == t[1..]
  {
    FindIs(s, c, t);
  }

  lemma EncodingDecoded(e: string, s: string, wild: char -> int)
    requires Encodes(e, s) && NUL !in s
    ensures Decoded(e, wild) == s && '=' !in e && '&' !in e
  {
    EncodesPlain(e, s);
    EncodesDecodes(e, s, 0, wild);
    CStringOfPlain(s, "");
    assert s + "" == s;
  }

  // ---- The program

  /** `cgiUnescapeChars`. */
  method UnescapeChars(cp: seq<char>, wild: char -> int) returns (s: array<char>)
    ensures fresh(s) && s.Length == |cp| + 1
    ensures
      var t := Unescaped(cp, Rest, 0, wild);
      |t| < s.Length && s[..|t|] == t && s[|t|] == NUL
    ensures CString(s[..]) == Decoded(cp, wild)
  {
    hide Produced, Unescaped, HexValue, Byte;
    s := new char[|cp| + 1];
    var escapeState, escapedValue, srcPos, dstPos := Rest, 0, 0, 0;
    ghost var t := Unescaped(cp, Rest, 0, wild);
    NothingProduced(cp, wild);
    assert cp[0..] == cp && s[..0] == "";
    while srcPos < |cp|
      invariant dstPos <= srcPos <= |cp|
      invariant Produced(t, s[..dstPos], cp[srcPos..], escapeState, escapedValue, wild)
    {
      var ch := cp[srcPos];
      ghost var before := s[..dstPos];
      ProducedStep(t, before, cp[srcPos..], escapeState, escapedValue, wild);
      assert cp[srcPos..][0] == ch && cp[srcPos..][1..] == cp[srcPos + 1..];
      match escapeState {
        case Rest =>
          if ch == '%' {
            escapeState := First;
          } else {
            s[dstPos] := if ch == '+' then ' ' else ch;
            dstPos := dstPos + 1;
            assert s[..dstPos] == before + [s[dstPos - 1]];
          }
        case First =>
          escapedValue := HexValue(ch, wild) * 16;
          escapeState := Second;
        case Second =>
          escapedValue := escapedValue + HexValue(ch, wild);
          s[dstPos] := Byte(escapedValue);
          dstPos := dstPos + 1;
          assert s[..dstPos] == before + [s[dstPos - 1]];
          escapeState := Rest;
      }
      srcPos := srcPos + 1;
    }
    assert cp[srcPos..] == "";
    AllProduced(t, s[..dstPos], escapeState, escapedValue, wild);
    s[dstPos] := NUL;
    AsCString(s[..], t);
  }

  /** `out` has been written, of what `s` will give. */
  ghost predicate Produced(t: string, out: string, s: string, st: EscapeState, value: int, wild: char -> int) {
    t == out + Unescaped(s, st, value, wild)
  }

  lemma NothingProduced(s: string, wild: char -> int)
    ensures Produced(Unescaped(s, Rest, 0, wild), "", s, Rest, 0, wild)
  {
    hide Unescaped;
    assert "" + Unescaped(s, Rest, 0, wild) == Unescaped(s, Rest, 0, wild);
  }

  lemma AllProduced(t: string, out: string, st: EscapeState, high: int, wild: char -> int)
    requires Produced(t, out, "", st, high, wild)
    ensures t == out
  {}

  lemma ProducedStep(t: string, out: string, s: string, st: EscapeState, value: int, wild: char -> int)
    requires Produced(t, out, s, st, value, wild) && s != ""
    ensures
      match st
      case Rest =>
        if s[0] == '%' then Produced(t, out, s[1..], First, value, wild)
        else Produced(t, out + [if s[0] == '+' then ' ' else s[0]], s[1..], Rest, value, wild)
      case First => Produced(t, out, s[1..], Second, HexValue(s[0], wild) * 16, wild)
      case Second =>
        var v := value + HexValue(s[0], wild);
        Produced(t, out + [Byte(v)], s[1..], Rest, v, wild)
  {
    hide HexValue, Byte;
  }

  lemma {:induction false} AsCString(s: string, t: string)
    requires |t| < |s| && s[..|t|] == t && s[|t|] == NUL
    ensures CString(s) == CString(t)
  {
    if t != "" && t[0] != NUL {
      assert s[0] == s[..|t|][0] && s[1..][..|t| - 1] == t[1..];
      AsCString(s[1..], t[1..]);
    }
  }

  /** `entries` has been stored, and `s` is still to be read. */
  ghost predicate Stored(all: seq<Pair>, entries: seq<Pair>, s: string, wild: char -> int) {
    all == entries + Pairs(s, wild)
  }

  /** A name has been read as well, and `v` is still to be read. */
  ghost predicate Halfway(all: seq<Pair>, entries: seq<Pair>, attr: string, v: string, wild: char -> int) {
    var amp := Find(v, '&');
    var pair := Pair(attr, Decoded(v[..amp], wild));
    all == if amp == |v| then entries + [pair] else entries + ([pair] + Pairs(v[amp + 1..], wild))
  }

  /** `s` up to `c` is `text`, and after it comes `rest`. */
  ghost predicate Scanned(s: string, c: char, text: string, rest: string, found: bool) {
    var k := Find(s, c);
    text == s[..k] && found == (k < |s|) && (found ==> rest == s[k + 1..])
  }

  lemma NameScanned(all: seq<Pair>, entries: seq<Pair>, s: string, text: string, rest: string, found: bool,
                    wild: char -> int)
    requires Stored(all, entries, s, wild) && Scanned(s, '=', text, rest, found)
    ensures if found then Halfway(all, entries, Decoded(text, wild), rest, wild) else all == entries
  {
    hide Find, Decoded;
  }

  lemma ValueScanned(all: seq<Pair>, entries: seq<Pair>, attr: string, v: string, text: string, rest: string,
                     found: bool, wild: char -> int)
    requires Halfway(all, entries, attr, v, wild) && Scanned(v, '&', text, rest, found)
    ensures
      var more := entries + [Pair(attr, Decoded(text, wild))];
      if found then Stored(all, more, rest, wild) else all == more
  {
    hide Find, Decoded, Pairs;
    var amp := Find(v, '&');
    if amp < |v| {
      Appended(entries, Pair(attr, Decoded(v[..amp], wild)), Pairs(v[amp + 1..], wild));
    }
  }

  lemma Appended(a: seq<Pair>, p: Pair, b: seq<Pair>)
    ensures a + ([p] + b) == a + [p] + b
  {}

  /** The C string that an entry gets. */
  method Unescape(text: string, wild: char -> int) returns (s: string)
    ensures s == Decoded(text, wild)
  {
    var a := UnescapeChars(text, wild);
    s := CString(a[..]);
  }

  /** One round of the loop of `cgiParseFormInput`. */
  method NextPair(data: seq<char>, start: nat, before: seq<Pair>, wild: char -> int, ghost all: seq<Pair>)
    returns (entries: seq<Pair>, pos: nat, more: bool)
    requires start <= |data| && Stored(all, before, data[start..], wild)
    ensures
      if more then start < pos <= |data| && Stored(all, entries, data[pos..], wild) else entries == all
  {
    hide *;
    entries := before;
    var text;
    ghost var s := data[start..];
    text, pos, more := Scan(data, start, '=');
    NameScanned(all, before, s, text, data[pos..], more, wild);
    if more {
      var attr := Unescape(text, wild);
      s := data[pos..];
      text, pos, more := Scan(data, pos, '&');
      ValueScanned(all, before, attr, s, text, data[pos..], more, wild);
      var value := Unescape(text, wild);
      entries := entries + [Pair(attr, value)];
    }
  }

  /** `cgiParseFormInput`. */
  method ParseFormInput(data: seq<char>, wild: char -> int) returns (entries: seq<Pair>)
    ensures entries == Pairs(data, wild)
  {
    entries := [];
    var pos, more := 0, true;
    ghost var all := Pairs(data, wild);
    StoredNothing(data, wild);
    assert data[0..] == data;
    hide *;
    while pos != |data|
      invariant pos <= |data| && Stored(all, entries, data[pos..], wild)
      decreases |data| - pos
    {
      entries, pos, more := NextPair(data, pos, entries, wild, all);
      if !more {
        return;
      }
    }
    assert data[pos..] == "";
    StoredAll(all, entries, wild);
  }

  lemma StoredNothing(data: string, wild: char -> int)
    ensures Stored(Pairs(data, wild), [], data, wild)
  {}

  lemma StoredAll(all: seq<Pair>, entries: seq<Pair>, wild: char -> int)
    requires Stored(all, entries, "", wild)
    ensures all == entries
  {}

  /** The loops that look for a separator; `text` is what they pass over. */
  method Scan(data: seq<char>, start: nat, c: char) returns (text: string, pos: nat, found: bool)
    requires start <= |data|
    ensures start <= pos <= |data| && (found ==> start < pos)
    ensures Scanned(data[start..], c, text, data[pos..], found)
  {
    var len;
    pos, len, found := start, 0, false;
    while pos != |data|
      invariant pos == start + len <= |data| && c !in data[start..pos]
      decreases |data| - pos
    {
      if data[pos] == c {
        found := true;
        pos := pos + 1;
        break;
      }
      pos := pos + 1;
      len := len + 1;
    }
    text := data[start..start + len];
    assert data[start..] == text + data[start + len..];
    CutAt(text, c, data[start + len..]);
  }
}
