/** `decomposeValue` of web/cgic/cgic.c: a header value split into its main value and the
    named parameters the caller asks for.
 */
module Params {
  import opened Text
  import opened Header

  function Until(s: string, stop: char): (r: string)
    ensures r <= s && stop !in r
    ensures |r| < |s| ==> s[|r|] == stop
  {
    if s == [] || s[0] == stop then [] else [s[0]] + Until(s[1..], stop)
  }

  function From(s: string, stop: char): string {
    s[|Until(s, stop)|..]
  }

  function Word(s: string): (r: string)
    ensures r <= s
  {
    if s == [] || !IsAlnum(s[0]) then [] else [s[0]] + Word(s[1..])
  }

  /** The parameter's place in the caller's list, or the list's length. */
  function Lookup(name: string, names: seq<string>): (k: nat)
    ensures k <= |names|
    ensures k < |names| ==> EqNc(name, names[k])
    ensures forall i | 0 <= i < k :: !EqNc(name, names[i])
  {
    if names == [] || EqNc(name, names[0]) then 0 else 1 + Lookup(name, names[1..])
  }

  /** A quoted or bare value, cut to its buffer, and what follows up to the next `;`. */
  function Quotable(s: string): (r: (string, string))
    ensures |r.1| <= |s|
  {
    if s != [] && s[0] == '"' then
      (Cut(Until(s[1..], '"')), From(From(s[1..], '"'), ';'))
    else
      (Cut(Until(s, ';')), From(s, ';'))
  }

  /** The result; not `defined` when the source writes through the null pointer it holds for a
      parameter the caller did not ask for. */
  datatype Fields = Fields(defined: bool, value: string, args: seq<string>)

  function Blank(n: nat): (r: seq<string>)
    ensures |r| == n && forall i | 0 <= i < n :: r[i] == ""
  {
    seq(n, i => "")
  }

  function Decompose(s: string, names: seq<string>): (r: Fields)
    ensures r.defined ==> |r.args| == |names|
  {
    var (value, rest) := Quotable(SkipSpace(s));
    Parameters(rest, names, Fields(true, value, Blank(|names|)))
  }

  function Parameters(s: string, names: seq<string>, f: Fields): (r: Fields)
    requires f.defined && |f.args| == |names|
    ensures r.defined ==> |r.args| == |names|
    decreases |s|
  {
    if s == [] || s[0] != ';' then f
    else
      var afterSemi := SkipSpace(s[1..]);
      var name := Word(afterSemi);
      var eq := SkipSpace(afterSemi[|name|..]);
      if eq == [] || eq[0] != '=' then f
      else
        var k := Lookup(Cut(name), names);
        var (arg, rest) := Quotable(SkipSpace(eq[1..]));
        if k < |names| then Parameters(rest, names, f.(args := f.args[k := arg]))
        else if names == [] then Parameters(rest, names, f)
        else f.(defined := false)
  }

  // ---- What the parameters are, by the text alone

  /** The parameters as names and values, up to a malformed one. */
  function Listing(s: string): (pairs: seq<(string, string)>)
    decreases |s|
  {
    if s == [] || s[0] != ';' then []
    else
      var afterSemi := SkipSpace(s[1..]);
      var name := Word(afterSemi);
      var eq := SkipSpace(afterSemi[|name|..]);
      if eq == [] || eq[0] != '=' then []
      else
        var (arg, rest) := Quotable(SkipSpace(eq[1..]));
        [(Cut(name), arg)] + Listing(rest)
  }

  predicate Asked(name: string, names: seq<string>) {
    exists k | 0 <= k < |names| :: EqNc(name, names[k])
  }

  /** The last value that a parameter is given. */
  function Latest(pairs: seq<(string, string)>, names: seq<string>, k: nat, before: string): string {
    if pairs == [] then before
    else Latest(pairs[1..], names, k, if Lookup(pairs[0].0, names) == k then pairs[0].1 else before)
  }

  /** The null write happens exactly if the caller asks for some parameters and another one is
      given, quoted or not; otherwise the result holds the main value and, for each name, the last
      value given. */
  lemma DefinedIffAsked(s: string, names: seq<string>)
    ensures
      var r := Decompose(s, names);
      var (value, rest) := Quotable(SkipSpace(s));
      && (r.defined <==> names == [] || forall p | p in Listing(rest) :: Asked(p.0, names))
      && (r.defined ==>
            && r.value == value
            && forall k | 0 <= k < |names| :: r.args[k] == Latest(Listing(rest), names, k, ""))
  {
    var (value, rest) := Quotable(SkipSpace(s));
    hide Quotable, SkipSpace;
    ParametersListed(rest, names, Fields(true, value, Blank(|names|)));
  }

  lemma {:induction false} ParametersListed(s: string, names: seq<string>, f: Fields)
    requires f.defined && |f.args| == |names|
    ensures
      var r := Parameters(s, names, f);
      && (r.defined <==> names == [] || forall p | p in Listing(s) :: Asked(p.0, names))
      && (r.defined ==>
            r.value == f.value && forall k | 0 <= k < |names| :: r.args[k] == Latest(Listing(s), names, k, f.args[k]))
    decreases |s|
  {
    hide SkipSpace, Word, Quotable, Asked, EqNc;
    if Listing(s) != [] {
      var afterSemi := SkipSpace(s[1..]);
      var name := Word(afterSemi);
      var eq := SkipSpace(afterSemi[|name|..]);
      var k := Lookup(Cut(name), names);
      var (arg, rest) := Quotable(SkipSpace(eq[1..]));
      AskedIsFound(Cut(name), names);
      FirstAsked((Cut(name), arg), Listing(rest), names);
      if k < |names| {
        ParametersListed(rest, names, f.(args := f.args[k := arg]));
      } else if names == [] {
        ParametersListed(rest, names, f);
      }
    }
  }

  lemma FirstAsked(p: (string, string), more: seq<(string, string)>, names: seq<string>)
    ensures
      (forall q | q in [p] + more :: Asked(q.0, names)) <==>
        Asked(p.0, names) && forall q | q in more :: Asked(q.0, names)
    ensures ([p] + more)[0] == p && ([p] + more)[1..] == more
  {
    hide Asked;
    assert p in [p] + more;
  }

  lemma AskedIsFound(name: string, names: seq<string>)
    ensures Asked(name, names) <==> Lookup(name, names) < |names|
  {
    hide EqNc;
  }

  /** `decomposeValue`. */
  method DecomposeValue(value: string, names: seq<string>) returns (f: Fields)
    ensures f == Decompose(value, names)
  {
    var p := Skip(value);
    var mvalue, rest := ReadQuotable(p);
    p := rest;
    f := Fields(true, mvalue, Blank(|names|));
    while p != [] && p[0] == ';'
      invariant f.defined && |f.args| == |names|
      invariant Decompose(value, names) == Parameters(p, names, f)
      decreases |p|
    {
      p := Skip(p[1..]);
      var name, afterName := ReadWord(p);
      p := afterName;
      p := Skip(p);
      if p == [] || p[0] != '=' {
        return;
      }
      p := Skip(p[1..]);
      var k := Find(name, names);
      var arg, rest := ReadQuotable(p);
      p := rest;
      if k < |names| {
        f := f.(args := f.args[k := arg]);
      } else if |names| > 0 {
        return f.(defined := false);
      }
    }
  }

  method Skip(s: string) returns (p: string)
    ensures p == SkipSpace(s)
  {
    p := s;
    while p != [] && IsSpace(p[0])
      invariant SkipSpace(p) == SkipSpace(s)
      decreases |p|
    {
      p := p[1..];
    }
  }

  method Find(name: string, names: seq<string>) returns (k: nat)
    ensures k == Lookup(name, names)
  {
    k := 0;
    while k < |names|
      invariant k <= |names|
      invariant Lookup(name, names) == k + Lookup(name, names[k..])
    {
      if EqNc(name, names[k]) {
        return;
      }
      k := k + 1;
    }
  }

  method ReadUntil(s: string, stop: char) returns (taken: string, p: string)
    ensures taken == Cut(Until(s, stop)) && p == From(s, stop)
  {
    p := s;
    taken := "";
    ghost var full := "";
    while p != [] && p[0] != stop
      invariant s == full + p
      invariant Until(s, stop) == full + Until(p, stop)
      invariant taken == Cut(full)
      decreases |p|
    {
      Regroup(full, p, Until(p[1..], stop));
      CutAdd(full, p[0]);
      taken := Add(taken, p[0]);
      full := full + [p[0]];
      p := p[1..];
    }
    assert Until(p, stop) == "" && full + "" == full;
  }

  lemma Regroup(full: string, p: string, tail: string)
    requires p != []
    ensures full + p == (full + [p[0]]) + p[1..]
    ensures full + ([p[0]] + tail) == (full + [p[0]]) + tail
  {}

  method ReadWord(s: string) returns (taken: string, p: string)
    ensures taken == Cut(Word(s)) && p == s[|Word(s)|..]
  {
    p := s;
    taken := "";
    ghost var full := "";
    while p != [] && IsAlnum(p[0])
      invariant s == full + p
      invariant Word(s) == full + Word(p)
      invariant taken == Cut(full)
      decreases |p|
    {
      Regroup(full, p, Word(p[1..]));
      CutAdd(full, p[0]);
      taken := Add(taken, p[0]);
      full := full + [p[0]];
      p := p[1..];
    }
    assert Word(p) == "" && full + "" == full;
  }

  method ReadQuotable(s: string) returns (taken: string, p: string)
    ensures (taken, p) == Quotable(s)
  {
    if s != [] && s[0] == '"' {
      taken, p := ReadUntil(s[1..], '"');
      var _, rest := ReadUntil(p, ';');
      p := rest;
    } else {
      taken, p := ReadUntil(s, ';');
    }
  }
}
