/**
 * The language that the header states of the automaton in src/http/http11_parser.cpp accept, read line
 * by line.
 */
module HttpGrammar {
  import opened HttpHeaders

  const COLON: Octet := 58

  /** The bytes of a name: no NUL, HT, SP, DEL, none of the separators of section 3.2.6 of RFC 7230, and
      nothing above ASCII; but all other control characters, LF and CR among them. */
  predicate NameByte(c: Octet) {
    || 1 <= c <= 8 || 10 <= c <= 31 || c == 33 || 35 <= c <= 39 || c == 42 || c == 43 || c == 45 || c == 46
    || 48 <= c <= 57 || 65 <= c <= 90 || 94 <= c <= 122 || c == 124 || c == 126
  }

  predicate Blank(c: Octet) { c == 32 || c == 9 }

  predicate ValueByte(c: Octet) { c != 0 && c != 127 && c != LF && c != CR }

  datatype Class = Names | Gaps | Values

  predicate Has(k: Class, c: Octet) {
    match k
    case Names => NameByte(c)
    case Gaps => Blank(c)
    case Values => ValueByte(c)
  }

  /** Where a stretch of such bytes ends. */
  function Span(buf: seq<Octet>, p: nat, k: Class): (e: nat)
    requires p <= |buf|
    ensures p <= e <= |buf| && (e < |buf| ==> !Has(k, buf[e])) && forall j | p <= j < e :: Has(k, buf[j])
    decreases |buf| - p
  {
    if p < |buf| && Has(k, buf[p]) then Span(buf, p + 1, k) else p
  }

  /** A line that is complete, one that the buffer ends in, and one that is refused. */
  datatype LineRead = Whole(field: Field, next: nat) | Cut | Refused

  /** The end of a line: LF or CR LF. */
  function ReadEnd(buf: seq<Octet>, field: Field, end: nat): (r: LineRead)
    requires end <= |buf|
    ensures r.Whole? ==> end < r.next <= |buf|
  {
    if end == |buf| then Cut
    else if buf[end] == LF then Whole(field, end + 1)
    else if buf[end] != CR then Refused
    else if end + 1 == |buf| then Cut
    else if buf[end + 1] == LF then Whole(field, end + 2)
    else Refused
  }

  /** Blanks, the value, and the end of the line. */
  function ReadValue(buf: seq<Octet>, name: seq<Octet>, p: nat): (r: LineRead)
    requires p <= |buf|
    ensures r.Whole? ==> p < r.next <= |buf|
  {
    var value := Span(buf, p, Gaps);
    var end := Span(buf, value, Values);
    ReadEnd(buf, Field(name, buf[value..end]), end)
  }

  /** name ":" blanks value, and the end of the line. */
  function ReadLine(buf: seq<Octet>, p: nat): (r: LineRead)
    requires p < |buf|
    ensures r.Whole? ==> p < r.next <= |buf|
  {
    var colon := Span(buf, p, Names);
    if colon == |buf| then Cut
    else if colon == p || buf[colon] != COLON then Refused
    else ReadValue(buf, buf[p..colon], colon + 1)
  }

  datatype HeaderRead = Ended(fields: seq<Field>, next: nat) | Unfinished | Malformed

  /** Lines up to an empty one. */
  function ReadLines(buf: seq<Octet>, p: nat): HeaderRead
    requires p <= |buf|
    decreases |buf| - p
  {
    if p == |buf| then Unfinished
    else if buf[p] == LF then Ended([], p + 1)
    else if buf[p] == CR && p + 1 == |buf| then Unfinished
    else if buf[p] == CR && buf[p + 1] == LF then Ended([], p + 2)
    else
      match ReadLine(buf, p)
      case Cut => Unfinished
      case Refused => Malformed
      case Whole(field, next) =>
        match ReadLines(buf, next)
        case Ended(fields, end) => Ended([field] + fields, end)
        case other => other
  }

  // ----- The automaton reads the same ------------------------------------------

  lemma NamesAre(c: Octet)
    ensures NameNext(c) <==> NameByte(c)
    ensures NameFirst(c) <==> NameByte(c) && c != LF
    ensures !NameByte(COLON) && NameByte(CR)
  {
  }

  /** The printable bytes among those of a name are the token characters, and a printable value is one that
      is read whole. */
  lemma TokensAre(c: Octet, v: seq<Octet>)
    ensures TokenChar(c) <==> NameByte(c) && c > 31
    ensures FieldValue(v) <==> (forall b <- v :: ValueByte(b)) && (v != [] ==> !Blank(v[0]))
  {
  }

  /** How a scan from state 13 on comes out, against the reading by lines from there. */
  ghost predicate Agrees(s: Scan, n: Scan, h: HeaderRead) {
    match h
    case Ended(fields, end) => n.cs == 348 && n.p == n.bodyStart == end && n.fields == s.fields + fields
    case Unfinished => HeaderState(n.cs)
    case Malformed => n.cs == 0
  }

  lemma {:induction false} RunNames(buf: seq<Octet>, s: Scan)
    requires Within(buf, s) && s.cs == 14
    ensures var e := Span(buf, s.p, Names);
            Within(buf, s.(p := e)) && Finish(buf, s) == Finish(buf, s.(p := e))
    decreases |buf| - s.p
  {
    hide Finish, NameFirst, NameNext, NameByte;
    if s.p < |buf| && NameByte(buf[s.p]) {
      NamesAre(buf[s.p]);
      FinishStep(buf, s);
      RunNames(buf, Advance(buf, s));
    }
  }

  lemma {:induction false} RunGaps(buf: seq<Octet>, s: Scan) returns (n: Scan)
    requires Within(buf, s) && s.cs == 15
    ensures Within(buf, n) && Finish(buf, s) == Finish(buf, n)
    ensures n == s.(p := Span(buf, s.p, Gaps), mark := n.mark)
    decreases |buf| - s.p
  {
    hide Finish, NameFirst, NameNext;
    n := s;
    if s.p < |buf| && Blank(buf[s.p]) {
      FinishStep(buf, s);
      n := RunGaps(buf, Advance(buf, s));
    }
  }

  lemma {:induction false} RunValues(buf: seq<Octet>, s: Scan)
    requires Within(buf, s) && s.cs == 16
    ensures var e := Span(buf, s.p, Values);
            Within(buf, s.(p := e)) && Finish(buf, s) == Finish(buf, s.(p := e))
    decreases |buf| - s.p
  {
    hide Finish, NameFirst, NameNext;
    if s.p < |buf| && ValueByte(buf[s.p]) {
      FinishStep(buf, s);
      RunValues(buf, Advance(buf, s));
    }
  }

  lemma FinishEnd(buf: seq<Octet>, s: Scan)
    requires Within(buf, s) && (s.p == |buf| || !HeaderState(s.cs))
    ensures Finish(buf, s) == s
  {
  }

  /** Where the scan stands behind a name that begins at `start`. */
  ghost predicate NameDone(buf: seq<Octet>, s: Scan, n: Scan, colon: nat)
    requires Within(buf, s) && s.p <= colon <= |buf|
  {
    && Within(buf, n) && Finish(buf, s) == Finish(buf, n)
    && (if colon == |buf| then HeaderState(n.cs) && n.p == |buf|
        else if colon == s.p || buf[colon] != COLON then n.cs == 0
        else n == s.(cs := 15, p := colon + 1, fieldStart := s.p, fieldLen := colon - s.p))
  }

  /** Inside a name. */
  lemma NameEnds(buf: seq<Octet>, s: Scan, m: Scan) returns (n: Scan)
    requires Within(buf, s) && Within(buf, m) && Finish(buf, s) == Finish(buf, m)
    requires s.p < m.p && m == s.(cs := 14, p := m.p, fieldStart := s.p)
    ensures NameDone(buf, s, n, Span(buf, m.p, Names))
  {
    hide Finish, NameFirst, NameNext, NameByte;
    var colon := Span(buf, m.p, Names);
    RunNames(buf, m);
    n := m.(p := colon);
    if colon < |buf| {
      NamesAre(buf[colon]);
      FinishStep(buf, n);
      n := Advance(buf, n);
    }
  }

  /** Behind a CR at the start of a line that is not an empty one. */
  lemma NameAfterCR(buf: seq<Octet>, s: Scan, m: Scan) returns (n: Scan)
    requires Within(buf, s) && Within(buf, m) && Finish(buf, s) == Finish(buf, m)
    requires m == s.(cs := 18, p := s.p + 1, fieldStart := s.p) && m.p < |buf| && buf[m.p] != LF
    ensures NameDone(buf, s, n, Span(buf, m.p, Names))
  {
    hide Finish, NameFirst, NameNext, NameByte;
    NamesAre(buf[m.p]);
    FinishStep(buf, m);
    n := Advance(buf, m);
    if NameByte(buf[m.p]) {
      n := NameEnds(buf, s, n);
    }
  }

  /** The name of a line, from its first byte on; a CR that no LF follows begins one too. */
  lemma NameRun(buf: seq<Octet>, s: Scan) returns (n: Scan)
    requires Within(buf, s) && s.cs == 13 && s.p < |buf| && buf[s.p] != LF
    requires buf[s.p] == CR ==> s.p + 1 < |buf| && buf[s.p + 1] != LF
    ensures NameDone(buf, s, n, Span(buf, s.p, Names))
  {
    hide Finish, NameFirst, NameNext, NameByte;
    var c := buf[s.p];
    NamesAre(c);
    FinishStep(buf, s);
    n := Advance(buf, s);
    if c == CR {
      n := NameAfterCR(buf, s, n);
    } else if NameByte(c) {
      n := NameEnds(buf, s, n);
    }
  }

  /** Where the scan stands behind the colon of a line: at the next, or where the line is cut or wrong. */
  ghost predicate LineDone(buf: seq<Octet>, s: Scan, n: Scan, r: LineRead)
    requires Within(buf, s)
  {
    && Within(buf, n) && Finish(buf, s) == Finish(buf, n)
    && match r
       case Whole(field, next) =>
         n.cs == 13 && n.p == next && n.fields == s.fields + [field] && n.bodyStart == s.bodyStart
       case Cut => HeaderState(n.cs) && n.p == |buf|
       case Refused => n.cs == 0
  }

  /** The LF behind the CR of a line. */
  lemma LineFeed(buf: seq<Octet>, s: Scan, m: Scan, field: Field) returns (n: Scan)
    requires Within(buf, s) && Within(buf, m) && Finish(buf, s) == Finish(buf, m)
    requires m.cs == 17 && m.fields == s.fields + [field] && m.bodyStart == s.bodyStart
    ensures LineDone(buf, s, n, if m.p == |buf| then Cut else if buf[m.p] == LF then Whole(field, m.p + 1) else Refused)
  {
    hide Finish, NameFirst, NameNext;
    n := m;
    if m.p < |buf| {
      FinishStep(buf, m);
      n := Advance(buf, m);
    }
  }

  /** The byte that ends the value of a line, when that has been found at m. */
  lemma LineEnds(buf: seq<Octet>, s: Scan, m: Scan, field: Field) returns (n: Scan)
    requires Within(buf, s) && Within(buf, m) && Finish(buf, s) == Finish(buf, m)
    requires (m.cs == 15 && field.value == []) || (m.cs == 16 && field.value == buf[m.mark..m.p])
    requires m.p < |buf| ==> !ValueByte(buf[m.p])
    requires field.name == buf[m.fieldStart..m.fieldStart + m.fieldLen]
    requires m.fields == s.fields && m.bodyStart == s.bodyStart
    ensures LineDone(buf, s, n, ReadEnd(buf, field, m.p))
  {
    hide Finish, NameFirst, NameNext;
    n := m;
    if m.p < |buf| {
      FinishStep(buf, m);
      n := Advance(buf, m);
      if buf[m.p] == CR {
        n := LineFeed(buf, s, n, field);
      }
    }
  }

  /** The first byte of a value. */
  lemma ValueBegins(buf: seq<Octet>, m: Scan) returns (n: Scan)
    requires Within(buf, m) && m.cs == 15 && m.p < |buf| && ValueByte(buf[m.p]) && !Blank(buf[m.p])
    ensures Within(buf, n) && Finish(buf, m) == Finish(buf, n) && n == m.(cs := 16, mark := m.p, p := m.p + 1)
  {
    FinishStep(buf, m);
    n := Advance(buf, m);
    hide Finish;
  }

  /** The whole of a value. */
  lemma WholeValue(buf: seq<Octet>, m: Scan) returns (n: Scan)
    requires Within(buf, m) && m.cs == 15 && (m.p < |buf| ==> !Blank(buf[m.p]))
    ensures var end := Span(buf, m.p, Values);
            && Within(buf, n) && Finish(buf, m) == Finish(buf, n) && n == m.(cs := n.cs, mark := n.mark, p := end)
            && ((n.cs == 15 && m.p == end) || (n.cs == 16 && n.mark == m.p))
  {
    hide Finish, Advance, Within;
    n := m;
    if m.p < |buf| && ValueByte(buf[m.p]) {
      n := ValueBegins(buf, m);
      RunValues(buf, n);
      n := n.(p := Span(buf, m.p, Values));
    }
  }

  /** The value, its blanks in front, and the end of the line. */
  lemma ValueRun(buf: seq<Octet>, s: Scan) returns (n: Scan)
    requires Within(buf, s) && s.cs == 15
    ensures LineDone(buf, s, n, ReadValue(buf, buf[s.fieldStart..s.fieldStart + s.fieldLen], s.p))
  {
    var name := buf[s.fieldStart..s.fieldStart + s.fieldLen];
    var m := RunGaps(buf, s);
    var value, end := m.p, Span(buf, m.p, Values);
    var k := WholeValue(buf, m);
    hide Finish, Within, Span, ReadEnd, LineDone;
    assert value == end ==> buf[value..end] == [];
    n := LineEnds(buf, s, k, Field(name, buf[value..end]));
  }

  lemma LineDoneFrom(buf: seq<Octet>, s: Scan, m: Scan, n: Scan, r: LineRead)
    requires Within(buf, s) && Within(buf, m) && Finish(buf, s) == Finish(buf, m)
    requires m.fields == s.fields && m.bodyStart == s.bodyStart && LineDone(buf, m, n, r)
    ensures LineDone(buf, s, n, r)
  {
    hide Finish, Within;
  }

  /** Behind the colon of a line. */
  lemma ColonRun(buf: seq<Octet>, s: Scan, m: Scan, colon: nat) returns (n: Scan)
    requires Within(buf, s) && s.p < colon < |buf| && buf[colon] == COLON && NameDone(buf, s, m, colon)
    ensures LineDone(buf, s, n, ReadValue(buf, buf[s.p..colon], colon + 1))
  {
    hide Finish, ReadValue, LineDone;
    assert buf[m.fieldStart..m.fieldStart + m.fieldLen] == buf[s.p..colon];
    n := ValueRun(buf, m);
    LineDoneFrom(buf, s, m, n, ReadValue(buf, buf[s.p..colon], colon + 1));
  }

  /** One line of the header, from its first byte to behind its end. */
  lemma LineRun(buf: seq<Octet>, s: Scan) returns (n: Scan)
    requires Within(buf, s) && s.cs == 13 && s.p < |buf| && buf[s.p] != LF
    requires buf[s.p] == CR ==> s.p + 1 < |buf| && buf[s.p + 1] != LF
    ensures LineDone(buf, s, n, ReadLine(buf, s.p))
  {
    var colon := Span(buf, s.p, Names);
    hide Finish, ReadValue;
    n := NameRun(buf, s);
    if s.p < colon < |buf| && buf[colon] == COLON {
      n := ColonRun(buf, s, n, colon);
      hide LineDone, NameDone;
    }
  }

  /** From the start of any line the automaton reads what the reading by lines does. */
  lemma {:induction false} LinesAgree(buf: seq<Octet>, s: Scan)
    requires Within(buf, s) && s.cs == 13
    ensures Agrees(s, Finish(buf, s), ReadLines(buf, s.p))
    decreases |buf| - s.p
  {
    assert s.p <= |buf|;
    hide Finish, Advance, ReadLine, Within, LineDone;
    if s.p == |buf| {
      FinishEnd(buf, s);
    } else if buf[s.p] == LF || (buf[s.p] == CR && (s.p + 1 == |buf| || buf[s.p + 1] == LF)) {
      EmptyLine(buf, s);
    } else {
      var n := LineRun(buf, s);
      var r := ReadLine(buf, s.p);
      LineDoneSays(buf, s, n, r);
      if r.Whole? {
        LinesAgree(buf, n);
        var h := ReadLines(buf, r.next);
        if h.Ended? {
          FieldsBehind(s.fields, r.field, h.fields);
        }
      }
    }
  }

  lemma LineDoneSays(buf: seq<Octet>, s: Scan, n: Scan, r: LineRead)
    requires Within(buf, s) && LineDone(buf, s, n, r)
    ensures Within(buf, n) && Finish(buf, s) == Finish(buf, n)
    ensures r.Whole? ==> n.cs == 13 && n.p == r.next && n.fields == s.fields + [r.field] && n.bodyStart == s.bodyStart
    ensures r.Cut? ==> HeaderState(Finish(buf, s).cs)
    ensures r.Refused? ==> Finish(buf, s).cs == 0
  {
  }

  lemma FieldsBehind(before: seq<Field>, f: Field, behind: seq<Field>)
    ensures before + [f] + behind == before + ([f] + behind)
  {
  }

  lemma EmptyLine(buf: seq<Octet>, s: Scan)
    requires Within(buf, s) && s.cs == 13 && s.p < |buf|
    requires buf[s.p] == LF || (buf[s.p] == CR && (s.p + 1 == |buf| || buf[s.p + 1] == LF))
    ensures var n := Finish(buf, s);
            if buf[s.p] == LF then n.cs == 348 && n.p == n.bodyStart == s.p + 1 && n.fields == s.fields
            else if s.p + 1 == |buf| then HeaderState(n.cs)
            else n.cs == 348 && n.p == n.bodyStart == s.p + 2 && n.fields == s.fields
  {
    hide Finish, NameFirst, NameNext;
    FinishStep(buf, s);
    var n := Advance(buf, s);
    if buf[s.p] == CR && s.p + 1 < |buf| {
      FinishStep(buf, n);
      n := Advance(buf, n);
    }
    FinishEnd(buf, n);
  }

  /** The automaton accepts exactly the headers that are lines with an empty one behind, reports their
      fields in order and stops right behind them; it fails on exactly those with a malformed line. */
  lemma AcceptsExactly(buf: seq<Octet>)
    ensures var n := Execute(13, buf);
            match ReadLines(buf, 0)
            case Ended(fields, end) => n.cs == 348 && n.p == n.bodyStart == end && n.fields == fields
            case Unfinished => HeaderState(n.cs)
            case Malformed => n.cs == 0
  {
    LinesAgree(buf, Enter(13));
    hide Finish, ReadLines;
    var h := ReadLines(buf, 0);
    if h.Ended? {
      assert [] + h.fields == h.fields;
    }
  }
}
