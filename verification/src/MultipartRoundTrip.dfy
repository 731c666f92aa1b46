/** Writing a form as multipart/form-data and parsing it back.

    The layout is the one of section 5.1.1 of RFC 2046, without an epilogue.
 */
module MultipartRoundTrip {
  import opened Text
  import opened Streams
  import opened Header
  import opened Params
  import opened Boundary
  import opened FirstBoundary
  import opened Multipart

  datatype FormPart = FormPart(name: string, fileName: string, contentType: string, body: string)

  /** A header line: its name, the white space after the colon, which may fold the line, its value
      and its end. */
  datatype Field = Field(attr: string, gap: string, value: string, eol: string)

  /** A part as it is sent: how the disposition is spelled, all the lines of its header, among them
      those that matter here, and the end of the empty line. */
  datatype SentPart = SentPart(part: FormPart, kind: string, fields: seq<Field>, blank: string)

  function Disposition(p: FormPart, kind: string): string {
    kind + Parameter("name", p.name, if p.fileName == "" then "" else Parameter("filename", p.fileName, ""))
  }

  function Parameter(name: string, value: string, rest: string): string {
    "; " + (name + ("=" + Quoted(value, rest)))
  }

  function Quoted(value: string, rest: string): string {
    "\"" + (value + ("\"" + rest))
  }

  function HeaderLine(f: Field, rest: string): string {
    f.attr + (":" + (f.gap + (f.value + (f.eol + rest))))
  }

  function FieldLines(fields: seq<Field>, rest: string): string {
    if fields == [] then rest else HeaderLine(fields[0], FieldLines(fields[1..], rest))
  }

  function PartText(p: SentPart, rest: string): string {
    FieldLines(p.fields, p.blank + (p.part.body + rest))
  }

  /** What follows a boundary, up to the end of the body. */
  function After(parts: seq<SentPart>, w: string): (r: string)
    ensures |r| >= 2
  {
    if parts == [] then "--\r\n" else "\r\n" + PartText(parts[0], w + After(parts[1..], w))
  }

  function Encode(parts: seq<SentPart>, boundary: string): string {
    Delimiter(boundary, true) + After(parts, Delimiter(boundary, false))
  }

  function ToEntry(p: FormPart): Entry {
    if p.fileName == "" then Entry(p.name, p.body, |p.body|, "", p.contentType, None)
    else Entry(p.name, "", |p.body|, p.fileName, p.contentType, Some(p.body))
  }

  function ToEntries(parts: seq<SentPart>): (r: seq<Entry>)
    ensures |r| == |parts| && forall i | 0 <= i < |r| :: r[i] == ToEntry(parts[i].part)
  {
    seq(|parts|, i requires 0 <= i < |parts| => ToEntry(parts[i].part))
  }

  /** A header value on one line. */
  predicate OneLine(s: string) {
    forall i | 0 <= i < |s| :: s[i] !in {CR, LF, NUL}
  }

  /** What the header reader hands on unchanged: every later colon is dropped. */
  predicate Plain(s: string) {
    OneLine(s) && ':' !in s
  }

  predicate ColonFree(p: FormPart) {
    ':' !in p.name && ':' !in p.fileName && ':' !in p.contentType
  }

  predicate AllColonFree(parts: seq<SentPart>) {
    forall i | 0 <= i < |parts| :: ColonFree(parts[i].part)
  }

  const DISPOSITION: string := "Content-Disposition"
  const TYPE: string := "Content-Type"

  function Spaceless(s: string): string {
    if s == "" then "" else (if IsSpace(s[0]) then "" else [s[0]]) + Spaceless(s[1..])
  }

  /** The name of a header line; white space in it does not count. */
  predicate Name(s: string) {
    Plain(s) && 0 < |Spaceless(s)| < FIELD
  }

  /** A value that ends where its line ends: a colon at the end would take the line end along. */
  predicate Closed(s: string) {
    && s != "" && !IsSpace(s[|s| - 1]) && s[|s| - 1] != ':'
    && forall i | 0 <= i < |s| :: s[i] != CR && s[i] != LF
  }

  predicate AllSpace(s: string) {
    forall i | 0 <= i < |s| :: IsSpace(s[i])
  }

  /** A line end, when `next` follows: a carriage return takes a line feed along. */
  predicate Eol(s: string, next: string) {
    s == "\r\n" || s == "\n" || (s == "\r" && (next == "" || next[0] != LF))
  }

  /** The line is named so, in any case. */
  predicate Named(f: Field, attr: string) {
    SameAnyCase(Spaceless(f.attr), attr)
  }

  /** The line says what it should, if it is one of the two that matter. */
  predicate FieldFits(f: Field, disposition: string, contentType: string) {
    && Name(f.attr) && AllSpace(f.gap)
    && (if Named(f, DISPOSITION) then f.value == disposition
        else if Named(f, TYPE) then f.value == contentType && contentType != ""
        else Closed(f.value))
  }

  predicate Has(fields: seq<Field>, attr: string) {
    exists i | 0 <= i < |fields| :: Named(fields[i], attr)
  }

  /** The lines of the header, in any order and among any others: a disposition, and the content
      type if there is one. */
  predicate FieldsFit(fields: seq<Field>, disposition: string, contentType: string, blank: string) {
    && (forall i | 0 <= i < |fields| :: FieldFits(fields[i], disposition, contentType))
    && Has(fields, DISPOSITION) && (Has(fields, TYPE) <==> contentType != "")
    && !("--" <= fields[0].attr) && EolsFit(fields, blank)
  }

  /** What comes behind a line is the next name, or the empty line. */
  predicate EolsFit(fields: seq<Field>, blank: string) {
    forall i | 0 <= i < |fields| :: Eol(fields[i].eol, if i + 1 < |fields| then "" else blank)
  }

  predicate Sendable(s: SentPart, w: string) {
    var p := s.part;
    && OneLine(p.name) && '"' !in p.name
    && OneLine(p.fileName) && '"' !in p.fileName
    && OneLine(p.contentType) && ';' !in p.contentType && |p.contentType| < FIELD
    && (p.contentType != "" ==> !IsSpace(p.contentType[0]) && p.contentType[0] != '"')
    && SameAnyCase(s.kind, "form-data") && |Disposition(p, s.kind)| < FIELD
    && FieldsFit(s.fields, Disposition(p, s.kind), p.contentType, s.blank) && Eol(s.blank, p.body)
    && First(w, p.body) == None
  }

  // ---- Header lines

  lemma {:induction false} ReadAttr(a: string, rest: string, before: string)
    requires Plain(a) && |before + Spaceless(a)| < FIELD
    ensures ReadLine(a + rest, before, "", false) == ReadLine(rest, before + Spaceless(a), "", false)
  {
    if a == "" {
      assert a + rest == rest && before + Spaceless(a) == before;
    } else {
      assert (a + rest)[1..] == a[1..] + rest && a[0] in a;
      if IsSpace(a[0]) {
        assert Spaceless(a) == Spaceless(a[1..]);
        ReadAttr(a[1..], rest, before);
      } else {
        assert (before + [a[0]]) + Spaceless(a[1..]) == before + Spaceless(a);
        ReadAttr(a[1..], rest, before + [a[0]]);
      }
    }
  }

  /** A line ends, and the next begins behind its end. */
  lemma ReadEnd(eol: string, rest: string, attr: string, value: string, valueFound: bool)
    requires Eol(eol, rest)
    ensures ReadLine(eol + rest, attr, value, valueFound) == Line(attr != "" && value != "", attr, value, rest)
  {
    var s := eol + rest;
    if eol == "\r\n" {
      assert s[0] == CR && s[1] == LF && s[2..] == rest;
    } else {
      assert s[0] == eol[0] && s[1..] == rest;
      assert eol == "\r" && rest != "" ==> s[1] == rest[0];
    }
  }

  lemma {:induction false} ReadValue(v: string, eol: string, rest: string, attr: string, before: string)
    requires Plain(v) && attr != "" && |before + v| < FIELD && before + v != "" && Eol(eol, rest)
    ensures ReadLine(v + (eol + rest), attr, before, true) == Line(true, attr, before + v, rest)
  {
    if v == "" {
      assert v + (eol + rest) == eol + rest && before + v == before;
      ReadEnd(eol, rest, attr, before, true);
    } else {
      assert (v + (eol + rest))[1..] == v[1..] + (eol + rest);
      assert (before + [v[0]]) + v[1..] == before + v;
      ReadValue(v[1..], eol, rest, attr, before + [v[0]]);
    }
  }

  lemma {:induction false} SkipGap(gap: string, t: string)
    requires AllSpace(gap)
    ensures SkipSpace(gap + t) == SkipSpace(t)
  {
    if gap == "" {
      assert gap + t == t;
    } else {
      assert (gap + t)[1..] == gap[1..] + t;
      SkipGap(gap[1..], t);
    }
  }

  /** The name and the colon. */
  lemma ReadName(f: Field, rest: string)
    requires Name(f.attr) && AllSpace(f.gap)
    ensures
      ReadLine(HeaderLine(f, rest), "", "", false) ==
        ReadLine(SkipSpace(f.value + (f.eol + rest)), Spaceless(f.attr), "", true)
  {
    var text := f.value + (f.eol + rest);
    ReadAttr(f.attr, ":" + (f.gap + text), "");
    assert "" + Spaceless(f.attr) == Spaceless(f.attr);
    assert (":" + (f.gap + text))[1..] == f.gap + text;
    SkipGap(f.gap, text);
  }

  lemma ReadHeader(f: Field, rest: string)
    requires Name(f.attr) && AllSpace(f.gap) && Readable(f.value) && Eol(f.eol, rest)
    ensures ReadLine(HeaderLine(f, rest), "", "", false) == Line(true, Spaceless(f.attr), f.value, rest)
  {
    ReadName(f, rest);
    var text := f.value + (f.eol + rest);
    assert text[0] == f.value[0] && SkipSpace(text) == text && "" + f.value == f.value;
    ReadValue(f.value, f.eol, rest, Spaceless(f.attr), "");
  }

  /** A line without a colon ends the header, be it empty or not. */
  lemma {:induction false} NoColonEnds(line: string, eol: string, rest: string, attr: string)
    requires Plain(line) && Eol(eol, rest)
    ensures var r := ReadLine(line + (eol + rest), attr, "", false); !r.ok && r.rest == rest
    decreases |line|
  {
    var t := eol + rest;
    if line == "" {
      assert line + t == t;
      ReadEnd(eol, rest, attr, "", false);
    } else {
      assert (line + t)[1..] == line[1..] + t;
      NoColonEnds(line[1..], eol, rest, if IsSpace(line[0]) then attr else Add(attr, line[0]));
    }
  }

  lemma HeaderEnds(line: string, eol: string, rest: string, h: Head)
    requires Plain(line) && Eol(eol, rest)
    ensures ReadHead(line + (eol + rest), h) == Some((h, rest))
  {
    NoColonEnds(line, eol, rest, "");
  }

  // ---- Parameters

  lemma {:induction false} UntilAt(a: string, rest: string, stop: char)
    requires stop !in a && (rest == "" || rest[0] == stop)
    ensures Until(a + rest, stop) == a && From(a + rest, stop) == rest
  {
    if a == "" {
      assert a + rest == rest;
    } else {
      assert (a + rest)[1..] == a[1..] + rest;
      UntilAt(a[1..], rest, stop);
    }
  }

  lemma {:induction false} WordAt(a: string, rest: string)
    requires (forall c | c in a :: IsAlnum(c)) && (rest == "" || !IsAlnum(rest[0]))
    ensures Word(a + rest) == a
  {
    if a == "" {
      assert a + rest == rest;
    } else {
      assert (a + rest)[1..] == a[1..] + rest && a[0] in a;
      WordAt(a[1..], rest);
    }
  }

  lemma QuotedValue(value: string, rest: string)
    requires '"' !in value && |value| < FIELD && (rest == "" || rest[0] == ';')
    ensures Quotable(Quoted(value, rest)) == (value, rest)
  {
    var close := "\"" + rest;
    assert Quoted(value, rest)[1..] == value + close;
    UntilAt(value, close, '"');
    UntilAt("\"", rest, ';');
    assert Cut(value) == value;
  }

  lemma OneParameter(name: string, value: string, rest: string, f: Fields)
    requires f.defined && |f.args| == 2 && name in NAMES
    requires '"' !in value && |value| < FIELD && (rest == "" || rest[0] == ';')
    ensures Parameters(Parameter(name, value, rest), NAMES, f) ==
            Parameters(rest, NAMES, f.(args := f.args[if name == "name" then 0 else 1 := value]))
  {
    hide Quotable, Quoted, Word, Lookup, SkipSpace, Cut;
    var quoted := Quoted(value, rest);
    ParameterName(name, quoted);
    QuotedValue(value, rest);
    QuotedStart(value, rest);
    LookupNames(name);
  }

  lemma QuotedStart(value: string, rest: string)
    ensures SkipSpace(Quoted(value, rest)) == Quoted(value, rest)
  {}

  lemma ParameterName(name: string, quoted: string)
    requires name in NAMES
    ensures
      var s := "; " + (name + ("=" + quoted));
      var t := name + ("=" + quoted);
      && s[0] == ';' && SkipSpace(s[1..]) == t && Word(t) == name
      && SkipSpace(t[|name|..]) == "=" + quoted && ("=" + quoted)[1..] == quoted
  {
    var s := "; " + (name + ("=" + quoted));
    var t := name + ("=" + quoted);
    assert s[1..] == " " + t && (" " + t)[1..] == t;
    assert SkipSpace(" " + t) == t;
    WordAt(name, "=" + quoted);
    assert t[|name|..] == "=" + quoted;
    assert SkipSpace("=" + quoted) == "=" + quoted;
  }

  lemma LookupNames(name: string)
    requires name in NAMES
    ensures Cut(name) == name && Lookup(name, NAMES) == if name == "name" then 0 else 1
  {
    assert NAMES[1..][0] == "filename";
    assert EqNc(name, name);
  }

  /** What any spelling of "form-data" has in common. */
  lemma KindIsWord(kind: string)
    requires SameAnyCase(kind, "form-data")
    ensures |kind| == 9 && Plain(kind) && ';' !in kind && kind[0] != '"' && !IsSpace(kind[0])
  {
    var word := "form-data";
    assert forall i | 0 <= i < 9 :: word[i] == '-' || 'a' <= word[i] <= 'z';
    hide AnyCase;
    forall i | 0 <= i < 9
      ensures kind[i] == '-' || IsAlpha(kind[i])
    {
      LetterOrSame(kind[i], word[i]);
    }
    LetterOrSame(kind[0], word[0]);
  }

  lemma LetterOrSame(c: char, d: char)
    requires AnyCase(c, d)
    ensures c == d || (IsAlpha(c) && IsAlpha(d))
  {
    if c != d {
      var j :| 0 <= j < 26 && ((c == CAPITALS[j] && d == SMALL[j]) || (c == SMALL[j] && d == CAPITALS[j]));
      LetterAt(j);
    }
  }

  lemma ReadDisposition(s: SentPart, w: string)
    requires Sendable(s, w) && ColonFree(s.part)
    ensures Decompose(Disposition(s.part, s.kind), NAMES) == Fields(true, s.kind, [s.part.name, s.part.fileName])
  {
    var p := s.part;
    var filePart := if p.fileName == "" then "" else Parameter("filename", p.fileName, "");
    var params := Parameter("name", p.name, filePart);
    hide FieldsFit, SameAnyCase;
    KindIsWord(s.kind);
    FormData(s.kind, params);
    var f := Fields(true, s.kind, Blank(2));
    assert |p.name| + |p.fileName| < FIELD;
    OneParameter("name", p.name, filePart, f);
    var f' := f.(args := f.args[0 := p.name]);
    if p.fileName != "" {
      OneParameter("filename", p.fileName, "", f');
      assert f'.args[1 := p.fileName] == [p.name, p.fileName];
    } else {
      assert f'.args == [p.name, ""];
    }
  }

  lemma FormData(kind: string, params: string)
    requires params != "" && params[0] == ';' && 0 < |kind| < FIELD && ';' !in kind
    requires kind[0] != '"' && !IsSpace(kind[0])
    ensures SkipSpace(kind + params) == kind + params
    ensures Quotable(kind + params) == (kind, params)
  {
    UntilAt(kind, params, ';');
    assert (kind + params)[0] == kind[0] && Cut(kind) == kind;
  }

  lemma DispositionPlain(s: SentPart, w: string)
    requires Sendable(s, w) && ColonFree(s.part)
    ensures var d := Disposition(s.part, s.kind); Plain(d) && 0 < |d| < FIELD && !IsSpace(d[0])
  {
    hide FieldsFit, SameAnyCase;
    KindIsWord(s.kind);
    var p := s.part;
    var filePart := if p.fileName == "" then "" else Parameter("filename", p.fileName, "");
    if p.fileName != "" {
      ParameterPlain("filename", p.fileName, "");
    }
    ParameterPlain("name", p.name, filePart);
    PlainBoth(s.kind, Parameter("name", p.name, filePart));
    assert Disposition(p, s.kind)[0] == s.kind[0];
  }

  lemma PlainBoth(s: string, t: string)
    requires Plain(s) && Plain(t)
    ensures Plain(s + t)
  {}

  lemma ParameterPlain(name: string, value: string, rest: string)
    requires Plain(name) && Plain(value) && Plain(rest)
    ensures Plain(Parameter(name, value, rest))
  {
    PlainBoth("\"", rest);
    PlainBoth(value, "\"" + rest);
    PlainBoth("\"", value + ("\"" + rest));
    PlainBoth("=", Quoted(value, rest));
    PlainBoth(name, "=" + Quoted(value, rest));
    PlainBoth("; ", name + ("=" + Quoted(value, rest)));
  }

  // ---- Parameters as others may write them

  /** A quoted value, and anything up to the next semicolon. */
  lemma QuotedWithMore(value: string, more: string, rest: string)
    requires '"' !in value && |value| < FIELD && ';' !in more && (rest == "" || rest[0] == ';')
    ensures Quotable("\"" + (value + ("\"" + (more + rest)))) == (value, rest)
  {
    var close := "\"" + (more + rest);
    assert ("\"" + (value + close))[1..] == value + close;
    UntilAt(value, close, '"');
    UntilAt("\"" + more, rest, ';');
    assert ("\"" + more) + rest == close && Cut(value) == value;
  }

  /** A value without quotes. */
  lemma BareValue(value: string, rest: string)
    requires (value == "" || value[0] != '"') && ';' !in value && |value| < FIELD && (rest == "" || rest[0] == ';')
    ensures Quotable(value + rest) == (value, rest)
  {
    UntilAt(value, rest, ';');
    assert Cut(value) == value;
    if value + rest != "" {
      assert (value + rest)[0] == if value == "" then rest[0] else value[0];
    }
  }

  /** A parameter with white space around its name and before its value, and the name in any
      case. */
  lemma AnyParameter(s1: string, name: string, s2: string, s3: string, written: string, value: string, rest: string,
                     k: nat, f: Fields)
    requires AllSpace(s1) && AllSpace(s2) && AllSpace(s3) && k < 2 && SameAnyCase(name, NAMES[k])
    requires f.defined && |f.args| == 2
    requires written != "" && !IsSpace(written[0]) && Quotable(written + rest) == (value, rest)
    ensures Parameters(";" + (s1 + (name + (s2 + ("=" + (s3 + (written + rest)))))), NAMES, f) ==
            Parameters(rest, NAMES, f.(args := f.args[k := value]))
  {
    var afterEq := s3 + (written + rest);
    var afterName := s2 + ("=" + afterEq);
    var t := ";" + (s1 + (name + afterName));
    hide Quotable, SameAnyCase, AllSpace, SkipSpace, Word, Lookup;
    AnyName(name, k);
    assert t[1..] == s1 + (name + afterName);
    SkipGap(s1, name + afterName);
    NotSpaceFirst(name + afterName);
    SpaceOrEq(s2, afterEq);
    WordAt(name, afterName);
    assert (name + afterName)[|name|..] == afterName;
    SkipGap(s2, "=" + afterEq);
    NotSpaceFirst("=" + afterEq);
    assert ("=" + afterEq)[1..] == afterEq;
    SkipGap(s3, written + rest);
    NotSpaceFirst(written + rest);
  }

  lemma SpaceOrEq(s: string, rest: string)
    requires AllSpace(s)
    ensures var t := s + ("=" + rest); t != "" && !IsAlnum(t[0])
  {
    if s != "" {
      assert IsSpace(s[0]) && (s + ("=" + rest))[0] == s[0];
    }
  }

  lemma NotSpaceFirst(s: string)
    requires s != "" && !IsSpace(s[0])
    ensures SkipSpace(s) == s
  {}

  lemma AnyName(name: string, k: nat)
    requires k < 2 && SameAnyCase(name, NAMES[k])
    ensures name != "" && !IsSpace(name[0]) && (forall c | c in name :: IsAlnum(c))
    ensures Cut(name) == name && Lookup(name, NAMES) == k
  {
    assert NAMES[0] == "name" && NAMES[1] == "filename" && NAMES[1..][0] == "filename";
    assert forall i | 0 <= i < |NAMES[k]| :: 'a' <= NAMES[k][i] <= 'z';
    hide AnyCase;
    forall i | 0 <= i < |name|
      ensures IsAlpha(name[i])
    {
      LetterOrSame(name[i], NAMES[k][i]);
    }
    EqNcIsSameAnyCase(name, NAMES[k]);
    if k == 1 {
      assert |name| != |NAMES[0]|;
    }
  }

  lemma ReadToken(value: string, names: seq<string>)
    requires Plain(value) && ';' !in value && 0 < |value| < FIELD
    requires !IsSpace(value[0]) && value[0] != '"'
    ensures Decompose(value, names) == Fields(true, value, Blank(|names|))
  {
    UntilAt(value, "", ';');
    assert value + "" == value;
  }

  // ---- Parts

  lemma NoNul(s: string)
    requires Plain(s)
    ensures CString(s) == s
  {
    CStringOfPlain(s, "");
    assert s + "" == s;
  }

  /** White space is skipped within a text that does not end in it. */
  lemma {:induction false} SkipWithin(s: string, t: string)
    requires s != "" && !IsSpace(s[|s| - 1])
    ensures
      var r := SkipSpace(s);
      r != "" && |r| <= |s| && r == s[|s| - |r|..] && SkipSpace(s + t) == r + t
  {
    if IsSpace(s[0]) {
      assert (s + t)[1..] == s[1..] + t;
      SkipWithin(s[1..], t);
    }
  }

  /** Whatever is read as the value of a line: the line has a value and ends where it ends. */
  lemma {:induction false} ReadAny(v: string, eol: string, rest: string, attr: string, before: string)
    requires attr != "" && (if v == "" then before != "" else Closed(v)) && Eol(eol, rest)
    ensures
      var r := ReadLine(v + (eol + rest), attr, before, true);
      r.ok && r.attr == attr && r.rest == rest
    decreases |v|
  {
    var t := eol + rest;
    if v == "" {
      assert v + t == t;
      ReadEnd(eol, rest, attr, before, true);
    } else {
      assert (v + t)[1..] == v[1..] + t;
      if v[0] == ':' {
        SkipWithin(v[1..], t);
        ReadAny(SkipSpace(v[1..]), eol, rest, attr, before);
      } else {
        ReadAny(v[1..], eol, rest, attr, Add(before, v[0]));
      }
    }
  }

  lemma ReadOther(f: Field, rest: string)
    requires Name(f.attr) && AllSpace(f.gap) && Closed(f.value) && Eol(f.eol, rest)
    ensures
      var r := ReadLine(HeaderLine(f, rest), "", "", false);
      r.ok && r.attr == Spaceless(f.attr) && r.rest == rest
  {
    ReadName(f, rest);
    SkipWithin(f.value, f.eol + rest);
    ReadAny(SkipSpace(f.value), f.eol, rest, Spaceless(f.attr), "");
  }

  /** What a header block comes to, line by line: `h` with the disposition `d` and the type. */
  function Filled(h: Head, fields: seq<Field>, d: Fields, contentType: string): Head
    requires |d.args| == 2
  {
    var h' := if Has(fields, DISPOSITION) then
                h.(disposition := d.value, name := d.args[0], fileName := d.args[1])
              else h;
    if Has(fields, TYPE) then h'.(contentType := contentType) else h'
  }

  predicate Readable(value: string) {
    Plain(value) && 0 < |value| < FIELD && !IsSpace(value[0])
  }

  lemma {:induction false} ReadFields(fields: seq<Field>, value: string, d: Fields, contentType: string, blank: string,
                                      rest: string, h: Head)
    requires forall i | 0 <= i < |fields| :: FieldFits(fields[i], value, contentType)
    requires EolsFit(fields, blank) && Eol(blank, rest)
    requires Readable(value) && Decompose(value, NAMES) == d && d.defined
    requires contentType != "" ==> Readable(contentType) && Decompose(contentType, []) == Fields(true, contentType, [])
    ensures |d.args| == 2
    ensures ReadHead(FieldLines(fields, blank + rest), h) == Some((Filled(h, fields, d, contentType), rest))
    decreases |fields|
  {
    hide Decompose, FieldFits, ReadLine, Named, Readable, Eol;
    assert |d.args| == 2;
    if fields == [] {
      HeaderEnds("", blank, rest, h);
      assert "" + (blank + rest) == blank + rest;
    } else {
      var more := FieldLines(fields[1..], blank + rest);
      EolBefore(fields, value, contentType, blank, rest);
      ReadField(fields[0], value, d, contentType, more, h);
      ReadFields(fields[1..], value, d, contentType, blank, rest, Filled(h, [fields[0]], d, contentType));
      FilledStep(h, fields, d, contentType);
    }
  }

  lemma EolBefore(fields: seq<Field>, value: string, contentType: string, blank: string, rest: string)
    requires fields != [] && EolsFit(fields, blank) && Eol(blank, rest)
    requires forall i | 0 <= i < |fields| :: FieldFits(fields[i], value, contentType)
    ensures Eol(fields[0].eol, FieldLines(fields[1..], blank + rest)) && EolsFit(fields[1..], blank)
  {
    hide Named, Closed, AllSpace;
    assert forall i | 0 <= i < |fields[1..]| :: fields[1..][i] == fields[i + 1];
    if |fields| > 1 {
      NameOf(fields[1], value, contentType);
      assert fields[1].attr != "";
      assert FieldLines(fields[1..], blank + rest)[0] == fields[1].attr[0];
    } else {
      assert (blank + rest)[0] == blank[0];
    }
  }

  lemma FilledStep(h: Head, fields: seq<Field>, d: Fields, contentType: string)
    requires fields != [] && |d.args| == 2
    ensures
      Filled(Filled(h, [fields[0]], d, contentType), fields[1..], d, contentType) == Filled(h, fields, d, contentType)
  {
    HasFirst(fields, DISPOSITION);
    HasFirst(fields, TYPE);
    hide Has;
  }

  lemma HasFirst(fields: seq<Field>, attr: string)
    requires fields != []
    ensures Has(fields, attr) <==> Has([fields[0]], attr) || Has(fields[1..], attr)
  {
    hide Named;
    if Has([fields[0]], attr) {
      assert Named(fields[0], attr);
    }
    if i :| 0 <= i < |fields| && Named(fields[i], attr) {
      assert if i == 0 then [fields[0]][0] == fields[i] else fields[1..][i - 1] == fields[i];
    }
    if i :| 0 <= i < |fields[1..]| && Named(fields[1..][i], attr) {
      assert fields[i + 1] == fields[1..][i];
    }
  }

  lemma ReadField(f: Field, value: string, d: Fields, contentType: string, more: string, h: Head)
    requires FieldFits(f, value, contentType) && |d.args| == 2 && Eol(f.eol, more)
    requires Readable(value) && Decompose(value, NAMES) == d && d.defined
    requires contentType != "" ==> Readable(contentType) && Decompose(contentType, []) == Fields(true, contentType, [])
    ensures ReadHead(HeaderLine(f, more), h) == ReadHead(more, Filled(h, [f], d, contentType))
  {
    hide Decompose, ReadLine, SameAnyCase, EqNc, Closed, HeaderLine, Spaceless, AllSpace, Eol;
    var attr := Spaceless(f.attr);
    EqNcIsSameAnyCase(attr, DISPOSITION);
    EqNcIsSameAnyCase(attr, TYPE);
    DifferentNames(attr);
    HasOne(f, DISPOSITION);
    HasOne(f, TYPE);
    NameHasNoNul(f.attr);
    if Named(f, DISPOSITION) || Named(f, TYPE) {
      ReadHeader(f, more);
      NoNul(f.value);
    } else {
      ReadOther(f, more);
    }
    LineHasText(f, more);
  }

  lemma LineHasText(f: Field, more: string)
    ensures HeaderLine(f, more) != ""
  {}

  lemma HasOne(f: Field, attr: string)
    ensures Has([f], attr) <==> Named(f, attr)
  {
    hide Named;
    assert [f][0] == f;
  }

  lemma DifferentNames(attr: string)
    ensures SameAnyCase(attr, DISPOSITION) ==> !SameAnyCase(attr, TYPE)
  {}

  lemma {:induction false} SpacelessKeeps(s: string)
    requires NUL !in s
    ensures NUL !in Spaceless(s)
  {
    if s != "" {
      SpacelessKeeps(s[1..]);
    }
  }

  lemma NameHasNoNul(s: string)
    requires Name(s)
    ensures CString(Spaceless(s)) == Spaceless(s)
  {
    SpacelessKeeps(s);
    CStringOfPlain(Spaceless(s), "");
    assert Spaceless(s) + "" == Spaceless(s);
  }

  lemma EolStays(eol: string, body: string, rest: string)
    requires Eol(eol, body) && (rest == "" || rest[0] != LF)
    ensures Eol(eol, body + rest)
  {}

  lemma ReadPart(s: SentPart, w: string, rest: string)
    requires Sendable(s, w) && ColonFree(s.part) && (rest == "" || rest[0] != LF)
    ensures
      var p := s.part;
      ReadHead(PartText(s, rest), BLANK) == Some((Head(s.kind, p.name, p.fileName, p.contentType), p.body + rest))
  {
    var p := s.part;
    var value := Disposition(p, s.kind);
    hide Decompose, SameAnyCase, FieldFits, ReadHead, Disposition;
    DispositionPlain(s, w);
    ReadDisposition(s, w);
    if p.contentType != "" {
      ReadToken(p.contentType, []);
      assert Blank(0) == [];
    }
    EolStays(s.blank, p.body, rest);
    var d := Fields(true, s.kind, [p.name, p.fileName]);
    ReadFields(s.fields, value, d, p.contentType, s.blank, p.body + rest, BLANK);
  }

  lemma NoOccurrence(body: string, w: string, rest: string, i: nat)
    requires Marked(w) && First(w, body) == None && i < |body|
    ensures !(w <= (body + (w + rest))[i..])
  {
    var s := body + (w + rest);
    if i + |w| <= |body| {
      assert s[i..][..|w|] == body[i..][..|w|];
      if w <= body[i..] {
        FirstComplete(w, body, i);
      }
    } else {
      assert s[i..][|body| - i] == w[0];
    }
  }

  /** A body without the boundary ends exactly where the boundary was put. */
  lemma BodyEnds(body: string, w: string, rest: string)
    requires Marked(w) && First(w, body) == None
    ensures First(w, body + (w + rest)) == Some(|body|)
  {
    var s := body + (w + rest);
    assert s[|body|..] == w + rest;
    forall i: nat | i < |body|
      ensures !(w <= s[i..])
    {
      NoOccurrence(body, w, rest, i);
    }
    FirstUnique(w, s, |body|);
  }

  lemma {:induction false} PartsOfAfter(parts: seq<SentPart>, w: string, entries: seq<Entry>)
    requires Marked(w) && w[0] == CR && AllColonFree(parts) && forall p | p in parts :: Sendable(p, w)
    ensures Parts(Onward(After(parts, w)), w, entries) == Parsed(Success, entries + ToEntries(parts))
  {
    if parts == [] {
      assert entries + ToEntries(parts) == entries;
    } else {
      var next := After(parts[1..], w);
      OnwardLine(PartText(parts[0], w + next));
      OnePart(parts[0], w, next, entries);
      PartsOfAfter(parts[1..], w, entries + [ToEntry(parts[0].part)]);
      EntriesStep(parts, entries);
    }
  }

  lemma OnwardLine(s: string)
    ensures Onward("\r\n" + s) == s
  {}

  lemma EntriesStep(parts: seq<SentPart>, entries: seq<Entry>)
    requires parts != []
    ensures entries + ToEntries(parts) == (entries + [ToEntry(parts[0].part)]) + ToEntries(parts[1..])
  {}

  lemma OnePart(s: SentPart, w: string, next: string, entries: seq<Entry>)
    requires Marked(w) && w[0] == CR && Sendable(s, w) && ColonFree(s.part) && |next| >= 2
    ensures Parts(PartText(s, w + next), w, entries) ==
            Parts(Onward(next), w, entries + [ToEntry(s.part)])
  {
    var p := s.part;
    hide ReadHead, Body, Disposition, FieldFits, SameAnyCase, EqNc, Marked;
    ReadPart(s, w, w + next);
    BodyOf(p.body, w, next);
    EqNcIsSameAnyCase(s.kind, "form-data");
    NotLast(s, w + next);
    assert MakeEntry(Head(s.kind, p.name, p.fileName, p.contentType), p.body) == ToEntry(p);
  }

  /** A header without a disposition, or with another one than form data, makes no entry; the
      parser goes on right behind it. */
  lemma OthersSkipped(fields: seq<Field>, kind: string, blank: string, rest: string, w: string, entries: seq<Entry>)
    requires forall i | 0 <= i < |fields| :: FieldFits(fields[i], kind, "")
    requires fields != [] && !("--" <= fields[0].attr) && EolsFit(fields, blank) && Eol(blank, rest)
    requires Readable(kind) && ';' !in kind && kind[0] != '"' && !SameAnyCase(kind, "form-data")
    ensures Parts(FieldLines(fields, blank + rest), w, entries) == Parts(rest, w, entries)
  {
    hide ReadHead, Body, FieldFits, SameAnyCase, EqNc, Decompose;
    ReadToken(kind, NAMES);
    ReadFields(fields, kind, Fields(true, kind, Blank(2)), "", blank, rest, BLANK);
    EqNcIsSameAnyCase(kind, "form-data");
    NotFormData();
    FirstNotLast(fields, kind, blank + rest);
  }

  lemma NotFormData()
    ensures !EqNc("", "form-data")
  {}

  /** A part's text does not look like the end of the body. */
  lemma NotLast(s: SentPart, rest: string)
    requires FieldsFit(s.fields, Disposition(s.part, s.kind), s.part.contentType, s.blank)
    ensures !Last(PartText(s, rest))
  {
    var i :| 0 <= i < |s.fields| && Named(s.fields[i], DISPOSITION);
    hide FieldFits;
    assert FieldFits(s.fields[0], Disposition(s.part, s.kind), s.part.contentType);
    NameOf(s.fields[0], Disposition(s.part, s.kind), s.part.contentType);
    OneNotLast(s.fields, s.blank + (s.part.body + rest));
  }

  lemma NameOf(f: Field, disposition: string, contentType: string)
    requires FieldFits(f, disposition, contentType)
    ensures Name(f.attr)
  {}

  lemma FirstNotLast(fields: seq<Field>, kind: string, rest: string)
    requires fields != [] && FieldFits(fields[0], kind, "") && !("--" <= fields[0].attr)
    ensures !Last(FieldLines(fields, rest))
  {
    NameOf(fields[0], kind, "");
    OneNotLast(fields, rest);
  }

  lemma OneNotLast(fields: seq<Field>, rest: string)
    requires fields != [] && Name(fields[0].attr) && !("--" <= fields[0].attr)
    ensures !Last(FieldLines(fields, rest))
  {
    var f := fields[0];
    var text := FieldLines(fields, rest);
    assert text[0] == f.attr[0];
    if |f.attr| > 1 {
      assert text[1] == f.attr[1];
      assert f.attr[0] == f.attr[1] == '-' ==> "--" <= f.attr;
    } else {
      assert text[1] == ':';
    }
  }

  lemma BodyOf(body: string, w: string, next: string)
    requires Marked(w) && First(w, body) == None && |next| >= 2
    ensures Body(body + (w + next), w) == Some((body, Onward(next)))
  {
    hide First, Body, Onward, Marked;
    BodyEnds(body, w, next);
    Slices(body, w, next);
    BodyAt(body + (w + next), w, |body|);
  }

  lemma BodyAt(s: string, w: string, k: nat)
    requires First(w, s) == Some(k)
    ensures
      var after := s[k + |w|..];
      |after| >= 2 ==> Body(s, w) == Some((s[..k], Onward(after)))
  {}

  lemma Slices(a: string, b: string, c: string)
    ensures (a + (b + c))[..|a|] == a && (a + (b + c))[|a| + |b|..] == c
  {}

  // ---- Colons in header values

  predicate EntryColonFree(e: Entry) {
    ':' !in e.attr && ':' !in e.fileName && ':' !in e.contentType
  }

  predicate HeadColonFree(h: Head) {
    ':' !in h.name && ':' !in h.fileName && ':' !in h.contentType
  }

  lemma {:induction false} SkipSpaceKeeps(s: string, c: char)
    requires c !in s
    ensures c !in SkipSpace(s)
  {
    if s != "" && IsSpace(s[0]) {
      SkipSpaceKeeps(s[1..], c);
    }
  }

  /** A header value is never read with a colon in it. */
  lemma {:induction false} ReadLineDropsColons(s: string, attr: string, value: string, valueFound: bool)
    requires ':' !in value && (valueFound ==> attr != "")
    ensures ':' !in ReadLine(s, attr, value, valueFound).value
    decreases |s|
  {
    if s == "" || s[0] == CR || s[0] == LF {
    } else if s[0] == ':' && attr != "" {
      ReadLineDropsColons(SkipSpace(s[1..]), attr, value, true);
    } else if valueFound {
      ReadLineDropsColons(s[1..], attr, Add(value, s[0]), true);
    } else {
      ReadLineDropsColons(s[1..], if IsSpace(s[0]) then attr else Add(attr, s[0]), value, false);
    }
  }

  lemma QuotableKeeps(s: string, c: char)
    requires c !in s
    ensures c !in Quotable(s).0 && c !in Quotable(s).1
  {}

  lemma DecomposeKeeps(s: string, names: seq<string>, c: char)
    requires c !in s && Decompose(s, names).defined
    ensures c !in Decompose(s, names).value && forall k | 0 <= k < |names| :: c !in Decompose(s, names).args[k]
  {
    hide Quotable;
    SkipSpaceKeeps(s, c);
    var t := SkipSpace(s);
    QuotableKeeps(t, c);
    ParametersKeep(Quotable(t).1, names, Fields(true, Quotable(t).0, Blank(|names|)), c);
  }

  lemma {:induction false} ParametersKeep(s: string, names: seq<string>, f: Fields, c: char)
    requires f.defined && |f.args| == |names| && c !in s && c !in f.value
    requires forall k | 0 <= k < |names| :: c !in f.args[k]
    ensures
      var r := Parameters(s, names, f);
      r.defined ==> c !in r.value && forall k | 0 <= k < |names| :: c !in r.args[k]
    decreases |s|
  {
    hide SkipSpace, Word, Quotable, Lookup;
    if s != "" && s[0] == ';' {
      SkipSpaceKeeps(s[1..], c);
      var afterSemi := SkipSpace(s[1..]);
      var name := Word(afterSemi);
      SkipSpaceKeeps(afterSemi[|name|..], c);
      var eq := SkipSpace(afterSemi[|name|..]);
      if eq != "" && eq[0] == '=' {
        SkipSpaceKeeps(eq[1..], c);
        QuotableKeeps(SkipSpace(eq[1..]), c);
        var (arg, rest) := Quotable(SkipSpace(eq[1..]));
        var k := Lookup(Cut(name), names);
        if k < |names| {
          ParametersKeep(rest, names, f.(args := f.args[k := arg]), c);
        } else if names == [] {
          ParametersKeep(rest, names, f, c);
        }
      }
    }
  }

  lemma WithHeaderKeeps(h: Head, attr: string, value: string)
    requires HeadColonFree(h) && ':' !in value && WithHeader(h, attr, value).Some?
    ensures HeadColonFree(WithHeader(h, attr, value).value)
  {
    hide EqNc, Decompose;
    if Decompose(value, NAMES).defined {
      DecomposeKeeps(value, NAMES, ':');
    }
    if Decompose(value, []).defined {
      DecomposeKeeps(value, [], ':');
    }
  }

  lemma {:induction false} ReadHeadDropsColons(s: string, h: Head)
    requires HeadColonFree(h)
    ensures ReadHead(s, h).Some? ==> HeadColonFree(ReadHead(s, h).value.0)
    decreases |s|
  {
    hide HeadColonFree, ReadLine, WithHeader;
    ReadLineDropsColons(s, "", "", false);
    var l := ReadLine(s, "", "", false);
    if s != "" && l.ok && WithHeader(h, CString(l.attr), CString(l.value)).Some? {
      WithHeaderKeeps(h, CString(l.attr), CString(l.value));
      ReadHeadDropsColons(l.rest, WithHeader(h, CString(l.attr), CString(l.value)).value);
    }
  }

  predicate AllRead(entries: seq<Entry>) {
    forall i | 0 <= i < |entries| :: EntryColonFree(entries[i])
  }

  /** Whatever the input: no entry has a colon in its name, its file name or its type. */
  lemma {:induction false} NoColonRead(s: string, w: string, entries: seq<Entry>)
    requires AllRead(entries)
    ensures AllRead(Parts(s, w, entries).entries)
    decreases |s|
  {
    hide ReadHead, Body, MakeEntry, EqNc;
    if !Last(s) && ReadHead(s, BLANK).Some? {
      ReadHeadDropsColons(s, BLANK);
      var (h, rest) := ReadHead(s, BLANK).value;
      if !EqNc(h.disposition, "form-data") {
        NoColonRead(rest, w, entries);
      } else if Body(rest, w).Some? {
        var (body, next) := Body(rest, w).value;
        MakeEntryKeeps(h, body);
        NoColonRead(next, w, entries + [MakeEntry(h, body)]);
      }
    }
  }

  lemma MakeEntryKeeps(h: Head, body: string)
    requires HeadColonFree(h)
    ensures EntryColonFree(MakeEntry(h, body))
  {}

  /** So a part that has one is not returned as it was. */
  lemma ColonNotReturned(parts: seq<SentPart>, s: string, w: string)
    requires !AllColonFree(parts)
    ensures Parts(s, w, []).entries != ToEntries(parts)
  {
    NoColonRead(s, w, []);
    var i :| 0 <= i < |parts| && !ColonFree(parts[i].part);
    hide Parts;
    assert !EntryColonFree(ToEntry(parts[i].part));
    assert ToEntries(parts)[i] == ToEntry(parts[i].part);
  }

  // ---- The whole body

  /** The round trip: after every preamble that lets the first boundary be found, the parser
      returns the same parts in the same order, with their bodies, exactly if no header value has
      a colon in it. */
  lemma RoundTrip(preamble: string, parts: seq<SentPart>, boundary: string)
    requires Marked(Delimiter(boundary, false))
    requires Harmless(Delimiter(boundary, true), preamble, preamble + Encode(parts, boundary))
    requires forall p | p in parts :: Sendable(p, Delimiter(boundary, false))
    ensures
      var r := AfterFirst(preamble + Encode(parts, boundary), boundary);
      && r.Hit? && |r.ring| <= 2
      && (AllColonFree(parts) <==>
            Parts(r.ring + r.file, Delimiter(boundary, false), []) == Parsed(Success, ToEntries(parts)))
  {
    hide Parts, AllColonFree, Sendable, Harmless, Scan, Marked;
    var w, after := Delimiter(boundary, false), After(parts, Delimiter(boundary, false));
    FindsFirst(preamble, after, boundary);
    if AllColonFree(parts) {
      PartsOfAfter(parts, w, []);
      assert [] + ToEntries(parts) == ToEntries(parts);
    } else {
      ColonNotReturned(parts, Onward(after), w);
    }
  }

  lemma FindsFirst(preamble: string, after: string, boundary: string)
    requires |after| >= 2
    requires Harmless(Delimiter(boundary, true), preamble, preamble + (Delimiter(boundary, true) + after))
    ensures
      var r := AfterFirst(preamble + (Delimiter(boundary, true) + after), boundary);
      r.Hit? && |r.ring| <= 2 && r.ring + r.file == Onward(after)
  {
    var w := Delimiter(boundary, true);
    var s := preamble + (w + after);
    hide Seek, Swallowed, HyphensFirst, First, Delimiter;
    FoundThere(w, preamble, after);
    FinishPlain(Scan(w, "", s, 0, "").out, after);
  }

  lemma FoundThere(w: string, preamble: string, after: string)
    requires |w| >= 2 && w[0] == w[1] == '-' && Harmless(w, preamble, preamble + (w + after))
    ensures
      var r := Scan(w, "", preamble + (w + after), 0, "");
      r == Hit(if r.Hit? then r.out else "", "", after)
  {
    hide Scan, First, Swallowed, HyphensFirst, NoDoubleHyphen;
    var s := preamble + (w + after);
    if NoDoubleHyphen(preamble) {
      FoundAfterSingleHyphens(w, preamble, after, "");
    } else {
      FoundIffNotSwallowed(w, s, |preamble|, "");
      Slices(preamble, w, after);
    }
  }

  /** The same for the method: no transport of the encoded form loses or alters anything. */
  method ParseEncoded(preamble: string, parts: seq<SentPart>, boundary: string)
    returns (status: Status, entries: seq<Entry>)
    requires |boundary| <= MAX_BOUNDARY && Marked(Delimiter(boundary, false))
    requires Harmless(Delimiter(boundary, true), preamble, preamble + Encode(parts, boundary))
    requires forall p | p in parts :: Sendable(p, Delimiter(boundary, false))
    ensures Parsed(status, entries) == Parsed(Success, ToEntries(parts)) <==> AllColonFree(parts)
  {
    var input := preamble + Encode(parts, boundary);
    RoundTrip(preamble, parts, boundary);
    status, entries := ParsePostMultipartInput(input, |input|, boundary);
  }
}
