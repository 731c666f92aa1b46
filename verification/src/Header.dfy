/** The part headers of a multipart body in web/cgic/cgic.c: `readHeaderLine`,
    `decomposeValue` and the case-insensitive comparison they lead to.
 */
module Header {
  import opened Text
  import opened Streams

  const FIELD: nat := 1024   // every header buffer has this size

  /** `cgiStrEqNc`. Only a letter in `s` is compared without regard to case. */
  predicate EqNc(s: string, t: string) {
    |s| == |t| && forall i | 0 <= i < |s| :: SameNc(s[i], t[i])
  }

  predicate SameNc(c: char, d: char) {
    if IsAlpha(c) then ToLower(c) == ToLower(d) else c == d
  }

  /** The comparison is that of letters without regard to case. */
  lemma SameNcIsAnyCase(c: char, d: char)
    ensures SameNc(c, d) <==> AnyCase(c, d)
  {
    forall j: nat | j < 26
      ensures CAPITALS[j] == ('A' as int + j) as char && SMALL[j] == ('a' as int + j) as char
    {
      LetterAt(j);
    }
    if 'A' <= c <= 'Z' && SameNc(c, d) {
      assert CAPITALS[c as int - 'A' as int] == c;
    } else if 'a' <= c <= 'z' && SameNc(c, d) {
      assert SMALL[c as int - 'a' as int] == c;
    }
  }

  lemma EqNcIsSameAnyCase(s: string, t: string)
    ensures EqNc(s, t) <==> SameAnyCase(s, t)
  {
    hide SameNc, AnyCase;
    forall c, d
      ensures SameNc(c, d) <==> AnyCase(c, d)
    {
      SameNcIsAnyCase(c, d);
    }
  }

  function Cut(s: string): string {
    s[..Min(|s|, FIELD - 1)]
  }

  /** `APPEND`: a character that does not fit is dropped. */
  function Add(s: string, c: char): string {
    if |s| < FIELD - 1 then s + [c] else s
  }

  lemma CutAdd(s: string, c: char)
    ensures Cut(s + [c]) == Add(Cut(s), c)
  {
    if |s| < FIELD - 1 {
      assert Cut(s) == s;
    } else {
      assert (s + [c])[..FIELD - 1] == s[..FIELD - 1];
    }
  }

  function SkipSpace(s: string): (r: string)
    ensures |r| <= |s| && (r != [] ==> !IsSpace(r[0]))
  {
    if s != [] && IsSpace(s[0]) then SkipSpace(s[1..]) else s
  }

  /** What one `readHeaderLine` delivers; `ok` is its return value. */
  datatype Line = Line(ok: bool, attr: string, value: string, rest: string)

  /** `readHeaderLine` on a plain stream, with what it has gathered so far. */
  function ReadLine(s: string, attr: string, value: string, valueFound: bool): (r: Line)
    ensures |r.rest| <= |s| && (s != [] ==> |r.rest| < |s|)
    decreases |s|
  {
    if s == [] then Line(false, attr, value, s)
    else if s[0] == CR then
      Line(attr != [] && value != [], attr, value, if |s| > 1 && s[1] == LF then s[2..] else s[1..])
    else if s[0] == LF then
      Line(attr != [] && value != [], attr, value, s[1..])
    else if s[0] == ':' && attr != [] then
      ReadLine(SkipSpace(s[1..]), attr, value, true)
    else if valueFound then
      ReadLine(s[1..], attr, Add(value, s[0]), true)
    else
      ReadLine(s[1..], if IsSpace(s[0]) then attr else Add(attr, s[0]), value, false)
  }

  /** `readHeaderLine`. Each of its give-backs happens on an empty ring, given at most two
      characters there at the start; at the end there is at most one. */
  method ReadHeaderLine(mpp: MpStream) returns (ok: bool, attr: string, value: string)
    requires mpp.Valid() && |mpp.Ring()| <= RING_LIMIT
    modifies mpp, mpp.putback
    ensures mpp.Valid() && |mpp.Ring()| <= RING_LIMIT
    ensures if old(mpp.Left()) == 0 then !ok && mpp.Left() == 0 else mpp.Left() < old(mpp.Left())
    ensures |old(mpp.Ring())| <= 2 ==>
      var r := ReadLine(old(mpp.Rest()), "", "", false);
      |mpp.Ring()| <= 1 && ok == r.ok && mpp.Rest() == r.rest && (ok ==> attr == r.attr && value == r.value)
  {
    attr, value := "", "";
    var valueFound := false;
    ghost var all := mpp.Rest();
    ghost var orderly := |mpp.Ring()| <= 2;
    while true
      invariant mpp.Valid() && |mpp.Ring()| <= RING_LIMIT && mpp.Left() <= old(mpp.Left())
      invariant orderly ==> |mpp.Ring()| <= if attr == "" then 2 else 1
      invariant orderly ==> ReadLine(all, "", "", false) == ReadLine(mpp.Rest(), attr, value, valueFound)
      decreases mpp.Left()
    {
      ghost var s := mpp.Rest();
      var got, d := mpp.ReadChar();
      if !got {
        return false, attr, value;
      }
      assert s[0] == d && s[1..] == mpp.Rest();
      if d == CR {
        SkipLineFeed(mpp);
        break;
      } else if d == LF {
        break;
      } else if d == ':' && |attr| > 0 {
        valueFound := true;
        SkipSpaces(mpp);
      } else if !valueFound {
        if !IsSpace(d) && |attr| < FIELD - 1 {
          attr := attr + [d];
        }
      } else if |value| < FIELD - 1 {
        value := value + [d];
      }
    }
    ok := |attr| > 0 && |value| > 0;
  }

  /** What it does after a carriage return. */
  method SkipLineFeed(mpp: MpStream)
    requires mpp.Valid() && |mpp.Ring()| <= RING_LIMIT
    modifies mpp, mpp.putback
    ensures mpp.Valid() && |mpp.Ring()| <= RING_LIMIT && mpp.Left() <= old(mpp.Left())
    ensures |old(mpp.Ring())| <= 1 ==>
      var s := old(mpp.Rest());
      |mpp.Ring()| <= 1 && mpp.Rest() == if s != [] && s[0] == LF then s[1..] else s
  {
    ghost var s := mpp.Rest();
    var got, d := mpp.ReadChar();
    if got && d != LF {
      mpp.PutBack([d]);
      assert mpp.Ring() == [d] ==> mpp.Rest() == s;
    }
  }

  /** Its inner loop. */
  method SkipSpaces(mpp: MpStream)
    requires mpp.Valid() && |mpp.Ring()| <= RING_LIMIT
    modifies mpp, mpp.putback
    ensures mpp.Valid() && |mpp.Ring()| <= RING_LIMIT && mpp.Left() <= old(mpp.Left())
    ensures old(mpp.Ring()) == [] ==> |mpp.Ring()| <= 1 && mpp.Rest() == SkipSpace(old(mpp.Rest()))
  {
    ghost var all := mpp.Rest();
    ghost var orderly := mpp.Ring() == [];
    while true
      invariant mpp.Valid() && |mpp.Ring()| <= RING_LIMIT && mpp.Left() <= old(mpp.Left())
      invariant orderly ==> mpp.Ring() == [] && SkipSpace(all) == SkipSpace(mpp.Rest())
      decreases mpp.Left()
    {
      ghost var s := mpp.Rest();
      var got, d := mpp.ReadChar();
      if !got {
        return;
      }
      assert s[0] == d && s[1..] == mpp.Rest();
      if !IsSpace(d) {
        mpp.PutBack([d]);
        assert orderly ==> mpp.Rest() == s;
        return;
      }
    }
  }
}
