/**
 * The header states of the request automaton in src/http/http11_parser.cpp: 13 (start of a
 * line), 14 (in a name), 15 (before a value), 16 (in a value), 17 (after the CR of a line),
 * 18 (after a CR at the start of a line), 348 (done) and 0 (error).
 */
module HttpHeaders {

  /** A byte as the signed `char` the automaton compares. */
  type Octet = x: int | -128 <= x <= 127

  const LF: Octet := 10
  const CR: Octet := 13

  /** What a transition does besides moving on. */
  datatype Act = Nothing | StartName | EndName | StartValue | EmitEmpty | Emit | Done

  /** The next state, 0 for an error, and the action. */
  datatype Move = Move(next: nat, act: Act)

  /** Bytes that may begin a name: the tests of state 13 and, LF aside, of state 18. */
  predicate NameFirst(c: Octet) {
    || c == 33 || c == 124 || c == 126
    || (if c < 42 then (if c < 11 then 1 <= c <= 8 else c > 31 ==> 35 <= c <= 39)
        else if c > 43 then
          (if c < 48 then 45 <= c <= 46 else if c > 57 then (if c > 90 then 94 <= c <= 122 else c >= 65) else true)
        else true)
  }

  /** Bytes that may continue one: the tests of state 14, which let LF and CR pass. */
  predicate NameNext(c: Octet) {
    || c == 33 || c == 124 || c == 126
    || (if c < 42 then (if c < 10 then 1 <= c <= 8 else c > 31 ==> 35 <= c <= 39)
        else if c > 43 then
          (if c < 48 then 45 <= c <= 46 else if c > 57 then (if c > 90 then 94 <= c <= 122 else c >= 65) else true)
        else true)
  }

  predicate HeaderState(cs: nat) { 13 <= cs <= 18 }

  function Table(cs: nat, c: Octet): Move
    requires HeaderState(cs)
  {
    if cs == 13 then
      if c == 10 then Move(348, Done) else if c == 13 then Move(18, StartName)
      else if NameFirst(c) then Move(14, StartName) else Move(0, Nothing)
    else if cs == 14 then
      if c == 58 then Move(15, EndName) else if NameNext(c) then Move(14, Nothing) else Move(0, Nothing)
    else if cs == 15 then
      if c == 0 || c == 127 then Move(0, Nothing)
      else if c == 9 || c == 32 then Move(15, StartValue)
      else if c == 10 then Move(13, EmitEmpty) else if c == 13 then Move(17, EmitEmpty)
      else Move(16, StartValue)
    else if cs == 16 then
      if c == 0 || c == 127 then Move(0, Nothing)
      else if c == 10 then Move(13, Emit) else if c == 13 then Move(17, Emit)
      else Move(16, Nothing)
    else if cs == 17 then
      if c == 10 then Move(13, Nothing) else Move(0, Nothing)
    else
      if c == 10 then Move(348, Done) else if c == 58 then Move(15, EndName)
      else if NameFirst(c) then Move(14, Nothing) else Move(0, Nothing)
  }

  datatype Field = Field(name: seq<Octet>, value: seq<Octet>)

  /** The parser's variables and the fields reported so far; positions count from the buffer's start. */
  datatype Scan = Scan(cs: nat, mark: nat, fieldStart: nat, fieldLen: nat, bodyStart: nat, p: nat, fields: seq<Field>)

  /** A call of http_parser_execute forgets every mark. */
  function Enter(cs: nat): Scan { Scan(cs, 0, 0, 0, 0, 0, []) }

  /** Marks lie before the scan, names that are complete end before it. */
  ghost predicate Within(buf: seq<Octet>, s: Scan) {
    && s.mark <= s.p <= |buf| && s.fieldStart <= s.p && s.fieldLen <= s.p && s.bodyStart <= s.p
    && (s.mark < s.p || s.mark == 0) && (s.fieldStart < s.p || s.fieldStart == 0)
    && (s.cs == 15 || s.cs == 16 ==> s.fieldStart + s.fieldLen <= s.p)
  }

  function Advance(buf: seq<Octet>, s: Scan): (n: Scan)
    requires Within(buf, s) && HeaderState(s.cs) && s.p < |buf|
    ensures Within(buf, n)
  {
    var m := Table(s.cs, buf[s.p]);
    if m.next == 0 then s.(cs := 0)
    else
      var n := s.(cs := m.next, p := s.p + 1);
      match m.act
      case Nothing => n
      case StartName => n.(fieldStart := s.p)
      case EndName => n.(fieldLen := s.p - s.fieldStart)
      case StartValue => n.(mark := s.p)
      case EmitEmpty => n.(mark := s.p, fields := s.fields + [Field(buf[s.fieldStart..s.fieldStart + s.fieldLen], [])])
      case Emit => n.(fields := s.fields + [Field(buf[s.fieldStart..s.fieldStart + s.fieldLen], buf[s.mark..s.p])])
      case Done => n.(fieldStart := if s.cs == 13 then s.p else s.fieldStart, bodyStart := s.p + 1)
  }

  /** The scan runs to the end of the buffer, to an error, or to the end of the header. */
  function Finish(buf: seq<Octet>, s: Scan): (n: Scan)
    requires Within(buf, s)
    ensures Within(buf, n)
    decreases |buf| - s.p, s.cs
  {
    if s.p == |buf| || !HeaderState(s.cs) then s else Finish(buf, Advance(buf, s))
  }

  function Execute(cs: nat, buf: seq<Octet>): Scan { Finish(buf, Enter(cs)) }

  /** The parser object; `fields` stands for the calls of http_field. */
  class HttpParser {
    var cs: nat
    var bodyStart: nat
    var mark: nat
    var nread: nat
    var fieldStart: nat
    var fieldLen: nat
    var fields: seq<Field>

    /** http_parser_init, in the state the automaton reaches behind the request line. */
    constructor ()
      ensures cs == 13 && bodyStart == 0 && fields == []
    {
      cs := 13;
      bodyStart, mark, nread, fieldStart, fieldLen := 0, 0, 0, 0, 0;
      fields := [];
    }

    /** The variables and what has been reported beyond `before`, as a scan at p. */
    ghost function At(p: nat, before: seq<Field>): Scan
      requires before <= fields
      reads this
    {
      Scan(cs, mark, fieldStart, fieldLen, bodyStart, p, fields[|before|..])
    }

    /** One transition of the automaton; p stays where an error is found. */
    method Transition(buf: seq<Octet>, p: nat, ghost before: seq<Field>) returns (q: nat)
      requires HeaderState(cs) && p < |buf| && before <= fields && Within(buf, At(p, before))
      modifies this`cs, this`mark, this`fieldStart, this`fieldLen, this`bodyStart, this`fields
      ensures before <= fields && At(q, before) == Advance(buf, old(At(p, before)))
    {
      var m := Table(cs, buf[p]);
      hide NameFirst, NameNext;
      if m.next == 0 {
        cs := 0;
        return p;
      }
      match m.act {
        case Nothing =>
        case StartName => fieldStart := p;
        case EndName => fieldLen := p - fieldStart;
        case StartValue => mark := p;
        case EmitEmpty =>
          mark := p;
          fields := fields + [Field(buf[fieldStart..fieldStart + fieldLen], [])];
        case Emit => fields := fields + [Field(buf[fieldStart..fieldStart + fieldLen], buf[mark..p])];
        case Done =>
          fieldStart := if cs == 13 then p else fieldStart;
          bodyStart := p + 1;
      }
      cs := m.next;
      return p + 1;
    }

    /** http_parser_execute from a header state on a non-empty buffer. */
    method Run(buf: seq<Octet>) returns (n: nat)
      requires HeaderState(cs) && |buf| > 0 && bodyStart == 0
      modifies this
      ensures var r := Execute(old(cs), buf);
              && n == nread == r.p && old(fields) <= fields && At(n, old(fields)) == r
      // The closing assertions of the source.
      ensures nread <= |buf| && bodyStart <= |buf| && mark < |buf| && fieldLen <= |buf| && fieldStart < |buf|
    {
      nread, mark, fieldLen, fieldStart := 0, 0, 0, 0;
      var p: nat := 0;
      while p < |buf| && HeaderState(cs)
        invariant old(fields) <= fields && Within(buf, At(p, old(fields)))
        invariant Execute(old(cs), buf) == Finish(buf, At(p, old(fields)))
        decreases |buf| - p, cs
      {
        ghost var s := At(p, old(fields));
        AdvanceProgress(buf, s);
        FinishStep(buf, s);
        hide Advance, Finish, Table;
        p := Transition(buf, p, old(fields));
      }
      nread := p;
      n := nread;
    }
  }

  // ----- Printing and parsing --------------------------------------------------

  /** A token character of section 3.2.6 of RFC 7230. */
  predicate TokenChar(c: Octet) {
    || 48 <= c <= 57 || 65 <= c <= 90 || 97 <= c <= 122
    || c == 33 || 35 <= c <= 39 || c == 42 || c == 43 || c == 45 || c == 46 || 94 <= c <= 96 || c == 124 || c == 126
  }

  predicate Token(name: seq<Octet>) { name != [] && forall c <- name :: TokenChar(c) }

  /** No NUL, LF, CR, DEL anywhere, no SP or HT in front. */
  predicate FieldValue(v: seq<Octet>) {
    (forall c <- v :: c != 0 && c != 10 && c != 13 && c != 127) && (v != [] ==> v[0] != 32 && v[0] != 9)
  }

  predicate Printable(f: Field) { Token(f.name) && FieldValue(f.value) }

  /** `name ":" value CR LF`, with blanks in front of the value. */
  function Line(f: Field, blanks: seq<Octet>): seq<Octet> { f.name + [58] + blanks + f.value + [CR, LF] }

  function Lines(fs: seq<Field>): seq<Octet> {
    if fs == [] then [] else Line(fs[0], []) + Lines(fs[1..])
  }

  lemma FinishStep(buf: seq<Octet>, s: Scan)
    requires Within(buf, s) && HeaderState(s.cs) && s.p < |buf|
    ensures Finish(buf, s) == Finish(buf, Advance(buf, s))
  {
  }

  lemma AdvanceProgress(buf: seq<Octet>, s: Scan)
    requires Within(buf, s) && HeaderState(s.cs) && s.p < |buf|
    ensures var n := Advance(buf, s); n.p == s.p + 1 || (n.p == s.p && n.cs == 0)
  {
  }

  /** A stretch of name characters. */
  lemma {:induction false} ScanName(buf: seq<Octet>, s: Scan, end: nat)
    requires Within(buf, s) && s.cs == 14 && s.p <= end <= |buf|
    requires forall k :: s.p <= k < end ==> TokenChar(buf[k])
    ensures Within(buf, s.(p := end)) && Finish(buf, s) == Finish(buf, s.(p := end))
    decreases end - s.p
  {
    if s.p < end {
      assert TokenChar(buf[s.p]);
      FinishStep(buf, s);
      ScanName(buf, Advance(buf, s), end);
    }
  }

  /** Blanks in front of a value. */
  lemma {:induction false} ScanBlanks(buf: seq<Octet>, s: Scan, end: nat) returns (n: Scan)
    requires Within(buf, s) && s.cs == 15 && s.p <= end <= |buf|
    requires forall k :: s.p <= k < end ==> buf[k] == 32 || buf[k] == 9
    ensures Within(buf, n) && Finish(buf, s) == Finish(buf, n)
    ensures n == s.(p := end, mark := n.mark)
    decreases end - s.p
  {
    n := s;
    if s.p < end {
      FinishStep(buf, s);
      n := ScanBlanks(buf, Advance(buf, s), end);
    }
  }

  /** A stretch of value characters. */
  lemma {:induction false} ScanValue(buf: seq<Octet>, s: Scan, end: nat)
    requires Within(buf, s) && s.cs == 16 && s.p <= end <= |buf|
    requires forall k :: s.p <= k < end ==> buf[k] != 0 && buf[k] != 10 && buf[k] != 13 && buf[k] != 127
    ensures Within(buf, s.(p := end)) && Finish(buf, s) == Finish(buf, s.(p := end))
    decreases end - s.p
  {
    if s.p < end {
      FinishStep(buf, s);
      ScanValue(buf, Advance(buf, s), end);
    }
  }

  predicate Blanks(b: seq<Octet>) { forall c <- b :: c == 32 || c == 9 }

  /** What stands in the buffer at a position. */
  predicate Stands(buf: seq<Octet>, p: nat, text: seq<Octet>) {
    p + |text| <= |buf| && buf[p..p + |text|] == text
  }

  lemma StandsSplit(buf: seq<Octet>, p: nat, a: seq<Octet>, b: seq<Octet>)
    requires Stands(buf, p, a + b)
    ensures Stands(buf, p, a) && Stands(buf, p + |a|, b)
  {
    assert buf[p..p + |a + b|][..|a|] == a;
    assert buf[p..p + |a + b|][|a|..] == b;
  }

  lemma StandsAt(buf: seq<Octet>, p: nat, text: seq<Octet>)
    requires Stands(buf, p, text)
    ensures forall k :: p <= k < p + |text| ==> buf[k] == text[k - p] && buf[k] in text
  {
    forall k | p <= k < p + |text| ensures buf[k] == text[k - p] && buf[k] in text {
      assert buf[p..p + |text|][k - p] == text[k - p];
    }
  }

  /** One printed line at the scan position is reported as its field. */
  lemma ScanLine(buf: seq<Octet>, s: Scan, f: Field, blanks: seq<Octet>) returns (n: Scan)
    requires Within(buf, s) && s.cs == 13 && Printable(f) && Blanks(blanks)
    requires Stands(buf, s.p, Line(f, blanks))
    ensures Within(buf, n) && Finish(buf, s) == Finish(buf, n)
    ensures n.cs == 13 && n.p == s.p + |Line(f, blanks)| && n.fields == s.fields + [f] && n.bodyStart == s.bodyStart
  {
    var rest := blanks + f.value + [CR, LF];
    assert Line(f, blanks) == f.name + ([58] + rest);
    StandsSplit(buf, s.p, f.name, [58] + rest);
    StandsSplit(buf, s.p + |f.name|, [58], rest);
    var s1 := ScanFieldName(buf, s, f.name);
    n := ScanRest(buf, s1, f, blanks);
  }

  lemma ScanFieldName(buf: seq<Octet>, s: Scan, name: seq<Octet>) returns (n: Scan)
    requires Within(buf, s) && s.cs == 13 && Token(name)
    requires Stands(buf, s.p, name) && Stands(buf, s.p + |name|, [58])
    ensures Within(buf, n) && Finish(buf, s) == Finish(buf, n)
    ensures n.cs == 15 && n.p == s.p + |name| + 1 && n.fields == s.fields && n.bodyStart == s.bodyStart
    ensures buf[n.fieldStart..n.fieldStart + n.fieldLen] == name
  {
    var colon := s.p + |name|;
    StandsAt(buf, s.p, name);
    StandsAt(buf, colon, [58]);
    assert buf[s.p..colon] == name;
    hide Finish, Stands, NameNext;
    FinishStep(buf, s);
    var s1 := Advance(buf, s);
    ScanName(buf, s1, colon);
    FinishStep(buf, s1.(p := colon));
    n := Advance(buf, s1.(p := colon));
  }

  /** The part of a line behind the colon. */
  lemma ScanRest(buf: seq<Octet>, s: Scan, f: Field, blanks: seq<Octet>) returns (n: Scan)
    requires Within(buf, s) && s.cs == 15 && FieldValue(f.value) && Blanks(blanks)
    requires Stands(buf, s.p, blanks + f.value + [CR, LF])
    requires buf[s.fieldStart..s.fieldStart + s.fieldLen] == f.name
    ensures Within(buf, n) && Finish(buf, s) == Finish(buf, n)
    ensures n.cs == 13 && n.p == s.p + |blanks| + |f.value| + 2
    ensures n.fields == s.fields + [f] && n.bodyStart == s.bodyStart
  {
    hide Finish, Advance, Stands, FieldValue;
    StandsSplit(buf, s.p, blanks + f.value, [CR, LF]);
    StandsSplit(buf, s.p, blanks, f.value);
    StandsAt(buf, s.p, blanks);
    var s1 := ScanBlanks(buf, s, s.p + |blanks|);
    n := ScanFieldValue(buf, s1, f);
    StandsAt(buf, s1.p + |f.value|, [CR, LF]);
    n := ScanLineFeed(buf, n);
  }

  /** The LF behind a CR. */
  lemma ScanLineFeed(buf: seq<Octet>, s: Scan) returns (n: Scan)
    requires Within(buf, s) && s.cs == 17 && s.p < |buf| && buf[s.p] == LF
    ensures Within(buf, n) && Finish(buf, s) == Finish(buf, n)
    ensures n == s.(cs := 13, p := s.p + 1)
  {
    FinishStep(buf, s);
    n := Advance(buf, s);
  }

  /** The value and the CR behind it. */
  lemma ScanFieldValue(buf: seq<Octet>, s: Scan, f: Field) returns (n: Scan)
    requires Within(buf, s) && s.cs == 15 && FieldValue(f.value)
    requires Stands(buf, s.p, f.value) && Stands(buf, s.p + |f.value|, [CR, LF])
    requires buf[s.fieldStart..s.fieldStart + s.fieldLen] == f.name
    ensures Within(buf, n) && Finish(buf, s) == Finish(buf, n)
    ensures n.cs == 17 && n.p == s.p + |f.value| + 1
    ensures n.fields == s.fields + [f] && n.bodyStart == s.bodyStart
  {
    var end := s.p + |f.value|;
    StandsAt(buf, s.p, f.value);
    StandsAt(buf, end, [CR, LF]);
    assert buf[s.p..end] == f.value;
    hide Finish, Advance, Stands, Within;
    if f.value == [] {
      n := EmitNothing(buf, s, f);
    } else {
      n := ScanValueFrom(buf, s, end);
      n := EmitValue(buf, n, f);
    }
  }

  /** An empty value. */
  lemma EmitNothing(buf: seq<Octet>, s: Scan, f: Field) returns (n: Scan)
    requires Within(buf, s) && s.cs == 15 && s.p < |buf| && buf[s.p] == CR && f.value == []
    requires buf[s.fieldStart..s.fieldStart + s.fieldLen] == f.name
    ensures Within(buf, n) && Finish(buf, s) == Finish(buf, n)
    ensures n.cs == 17 && n.p == s.p + 1 && n.fields == s.fields + [f] && n.bodyStart == s.bodyStart
  {
    FinishStep(buf, s);
    n := Advance(buf, s);
  }

  lemma EmitValue(buf: seq<Octet>, s: Scan, f: Field) returns (n: Scan)
    requires Within(buf, s) && s.cs == 16 && s.p < |buf| && buf[s.p] == CR
    requires buf[s.fieldStart..s.fieldStart + s.fieldLen] == f.name && buf[s.mark..s.p] == f.value
    ensures Within(buf, n) && Finish(buf, s) == Finish(buf, n)
    ensures n == s.(cs := 17, p := s.p + 1, fields := s.fields + [f])
  {
    FinishStep(buf, s);
    n := Advance(buf, s);
  }

  /** A non-empty value, up to its end. */
  lemma ScanValueFrom(buf: seq<Octet>, s: Scan, end: nat) returns (n: Scan)
    requires Within(buf, s) && s.cs == 15 && s.p < end <= |buf|
    requires forall k :: s.p <= k < end ==> buf[k] != 0 && buf[k] != 10 && buf[k] != 13 && buf[k] != 127
    requires buf[s.p] != 32 && buf[s.p] != 9
    ensures Within(buf, n) && Finish(buf, s) == Finish(buf, n)
    ensures n == s.(cs := 16, mark := s.p, p := end)
  {
    FinishStep(buf, s);
    n := Advance(buf, s);
    ScanValue(buf, n, end);
    n := n.(p := end);
  }

  lemma {:induction false} ScanLines(buf: seq<Octet>, s: Scan, fs: seq<Field>) returns (n: Scan)
    requires Within(buf, s) && s.cs == 13 && Stands(buf, s.p, Lines(fs))
    requires forall f <- fs :: Printable(f)
    ensures Within(buf, n) && Finish(buf, s) == Finish(buf, n)
    ensures n.cs == 13 && n.p == s.p + |Lines(fs)| && n.fields == s.fields + fs && n.bodyStart == s.bodyStart
    decreases |fs|
  {
    hide Line, Printable, Finish, Within, Stands;
    n := s;
    if fs != [] {
      StandsSplit(buf, s.p, Line(fs[0], []), Lines(fs[1..]));
      n := ScanLine(buf, s, fs[0], []);
      n := ScanLines(buf, n, fs[1..]);
      assert s.fields + [fs[0]] + fs[1..] == s.fields + fs;
    }
  }

  /** The blank line ends the header; the body starts right behind it. */
  lemma ScanBlankLine(buf: seq<Octet>, s: Scan)
    requires Within(buf, s) && s.cs == 13 && Stands(buf, s.p, [CR, LF])
    ensures var n := Finish(buf, s);
            n.cs == 348 && n.fields == s.fields && n.p == n.bodyStart == s.p + 2
  {
    StandsAt(buf, s.p, [CR, LF]);
    FinishStep(buf, s);
    FinishStep(buf, Advance(buf, s));
  }

  /** "connection", "close", "keep-alive" and "content-length". */
  const CONNECTION: seq<Octet> := [99, 111, 110, 110, 101, 99, 116, 105, 111, 110]
  const CLOSE: seq<Octet> := [99, 108, 111, 115, 101]
  const KEEP_ALIVE: seq<Octet> := [107, 101, 101, 112, 45, 97, 108, 105, 118, 101]
  const CONTENT_LENGTH: seq<Octet> := [99, 111, 110, 116, 101, 110, 116, 45, 108, 101, 110, 103, 116, 104]

  function Lower(c: Octet): Octet { if 65 <= c <= 90 then c + 32 else c }

  /** strcasecmp(a, b) == 0. */
  predicate SameName(a: seq<Octet>, b: seq<Octet>) {
    |a| == |b| && forall i :: 0 <= i < |a| ==> Lower(a[i]) == Lower(b[i])
  }

  function Kept(headers: seq<Field>): seq<Field> {
    if headers == [] then []
    else (if SameName(headers[0].name, CONNECTION) then [] else [headers[0]]) + Kept(headers[1..])
  }

  function Decimal(n: nat): (d: seq<Octet>)
    ensures d != [] && forall c <- d :: 48 <= c <= 57
  {
    if n < 10 then [48 + n] else Decimal(n / 10) + [48 + n % 10]
  }

  function Connection(close: bool): Field {
    Field(CONNECTION, if close then CLOSE else KEEP_ALIVE)
  }

  function ContentLength(n: nat): Field { Field(CONTENT_LENGTH, Decimal(n)) }

  /** What dump prints behind the header fields the caller set. */
  function DumpTail(close: bool, body: seq<Octet>): seq<Octet> {
    Line(Connection(close), []) +
    if body != [] then Line(ContentLength(|body|), [32]) + ([CR, LF] + body) else [CR, LF] + [CR, LF]
  }

  /** What HttpRequest::dump prints behind the request line. */
  function Dump(headers: seq<Field>, close: bool, body: seq<Octet>): seq<Octet> {
    Lines(Kept(headers)) + DumpTail(close, body)
  }

  lemma {:induction false} KeptPrintable(headers: seq<Field>)
    requires forall f <- headers :: Printable(f)
    ensures forall f <- Kept(headers) :: Printable(f)
  {
    if headers != [] {
      assert headers[0] in headers && forall f <- headers[1..] :: f in headers;
      KeptPrintable(headers[1..]);
    }
  }

  lemma ConnectionPrintable(close: bool)
    ensures Printable(Connection(close))
  {
  }

  lemma ContentLengthPrintable(n: nat)
    ensures Printable(ContentLength(n))
  {
    assert Decimal(n)[0] in Decimal(n);
  }

  /** The lines dump adds itself. */
  function OwnFields(close: bool, body: seq<Octet>): seq<Field> {
    [Connection(close)] + if body != [] then [ContentLength(|body|)] else []
  }

  lemma ScanLengthAndBody(buf: seq<Octet>, s: Scan, body: seq<Octet>)
    requires Within(buf, s) && s.cs == 13
    requires Stands(buf, s.p, Line(ContentLength(|body|), [32]) + ([CR, LF] + body))
    ensures var n := Finish(buf, s);
            && n.cs == 348 && n.fields == s.fields + [ContentLength(|body|)] && n.p == n.bodyStart
            && n.p == s.p + |Line(ContentLength(|body|), [32])| + 2 && Stands(buf, n.p, body)
  {
    ContentLengthPrintable(|body|);
    hide Line, Printable, Finish, ContentLength, Stands, Within;
    StandsSplit(buf, s.p, Line(ContentLength(|body|), [32]), [CR, LF] + body);
    var n := ScanLine(buf, s, ContentLength(|body|), [32]);
    StandsSplit(buf, n.p, [CR, LF], body);
    ScanBlankLine(buf, n);
  }

  lemma ScanTail(buf: seq<Octet>, s: Scan, close: bool, body: seq<Octet>)
    requires Within(buf, s) && s.cs == 13 && Stands(buf, s.p, DumpTail(close, body))
    ensures var n := Finish(buf, s);
            && n.cs == 348 && n.fields == s.fields + OwnFields(close, body) && n.p == n.bodyStart
            && Stands(buf, n.p, Behind(body)) && n.p + |Behind(body)| == s.p + |DumpTail(close, body)|
  {
    ConnectionPrintable(close);
    hide Line, Printable, Finish, Connection, ContentLength, Stands, Within;
    if body != [] {
      StandsSplit(buf, s.p, Line(Connection(close), []), Line(ContentLength(|body|), [32]) + ([CR, LF] + body));
      var n := ScanLine(buf, s, Connection(close), []);
      ScanLengthAndBody(buf, n, body);
    } else {
      StandsSplit(buf, s.p, Line(Connection(close), []), [CR, LF] + [CR, LF]);
      var n := ScanLine(buf, s, Connection(close), []);
      StandsSplit(buf, n.p, [CR, LF], [CR, LF]);
      ScanBlankLine(buf, n);
    }
  }

  /** What dump prints behind the header: the body, or, without one, a second CR LF. */
  function Behind(body: seq<Octet>): seq<Octet> { if body != [] then body else [CR, LF] }

  lemma StandsWhole(text: seq<Octet>)
    ensures Stands(text, 0, text) && Within(text, Enter(13))
  {
  }

  lemma PrintedParses(text: seq<Octet>, fs: seq<Field>, close: bool, body: seq<Octet>)
    requires (forall f <- fs :: Printable(f)) && text == Lines(fs) + DumpTail(close, body)
    ensures var r := Execute(13, text);
            && r.cs == 348 && r.p == r.bodyStart && r.fields == fs + OwnFields(close, body)
            && Stands(text, r.p, Behind(body)) && r.p + |Behind(body)| == |text|
  {
    StandsWhole(text);
    hide Printable, Lines, DumpTail, Finish, Connection, ContentLength, Line, Stands, Within, OwnFields, Behind;
    assert [] + fs == fs;
    StandsSplit(text, 0, Lines(fs), DumpTail(close, body));
    var s := ScanLines(text, Enter(13), fs);
    ScanTail(text, s, close, body);
  }

  lemma StandsToEnd(buf: seq<Octet>, p: nat, text: seq<Octet>)
    requires Stands(buf, p, text) && p + |text| == |buf|
    ensures buf[p..] == text
  {
  }

  /** Parsing what dump prints gives back exactly the printed fields, in order, and stops right behind
      the blank line. What is left is the body, or, without one, a second CR LF that dump prints. */
  lemma DumpParses(headers: seq<Field>, close: bool, body: seq<Octet>)
    requires forall f <- headers :: Printable(f)
    ensures var text := Dump(headers, close, body);
            var r := Execute(13, text);
            && r.cs == 348 && r.p == r.bodyStart <= |text|
            && r.fields == Kept(headers) + OwnFields(close, body)
            && text[r.p..] == if body != [] then body else [CR, LF]
  {
    KeptPrintable(headers);
    hide Printable, Kept, Lines, DumpTail, Execute, OwnFields, Stands;
    var text := Dump(headers, close, body);
    PrintedParses(text, Kept(headers), close, body);
    StandsToEnd(text, Execute(13, text).p, Behind(body));
  }
}
