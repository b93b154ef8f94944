/**
 * What HttpRequest::dump in src/http/http.cpp prints, and what a parse of it reports, in plain terms.
 */
module HttpDumps {
  import opened Prelude
  import opened HttpHeaders

  // ----- Text ------------------------------------------------------------------

  function Ascii(c: char): Octet { if c < 128 as char then c as int else 0 }

  /** The bytes of a text of ASCII characters. */
  function Bytes(s: string): (b: seq<Octet>)
    ensures |b| == |s|
  {
    seq(|s|, i requires 0 <= i < |s| => Ascii(s[i]))
  }

  lemma BytesAppend(a: string, b: string)
    ensures Bytes(a + b) == Bytes(a) + Bytes(b)
  {
  }

  predicate Letter(c: Octet) { 'A' as int <= c <= 'Z' as int || 'a' as int <= c <= 'z' as int }

  /** The same byte, or the same letter in the other case. */
  predicate SameLetter(a: Octet, b: Octet) {
    a == b || (Letter(a) && Letter(b) && (a - b == 32 || b - a == 32))
  }

  /** Two names are the same for strcasecmp iff they are of the same length and agree letter by letter. */
  lemma SameNameIs(a: seq<Octet>, b: seq<Octet>)
    ensures SameName(a, b) <==> |a| == |b| && forall i | 0 <= i < |a| :: SameLetter(a[i], b[i])
  {
    forall i | 0 <= i < |a| && i < |b| ensures Lower(a[i]) == Lower(b[i]) <==> SameLetter(a[i], b[i]) {
    }
  }

  // ----- Numbers ---------------------------------------------------------------

  /** What a row of decimal digits stands for. */
  function Value(digits: seq<Octet>): int {
    if digits == [] then 0 else 10 * Value(digits[..|digits| - 1]) + (digits[|digits| - 1] - '0' as int)
  }

  lemma {:induction false} DecimalReads(n: nat)
    ensures Value(Decimal(n)) == n && (n > 0 ==> Decimal(n)[0] != '0' as int)
  {
    if n < 10 {
      assert Decimal(n)[..0] == [];
    } else {
      DecimalReads(n / 10);
      assert Decimal(n)[..|Decimal(n)| - 1] == Decimal(n / 10);
    }
  }

  // ----- The printed text ------------------------------------------------------

  lemma ConnectionIs() ensures CONNECTION == Bytes("connection") {}
  lemma CloseIs() ensures CLOSE == Bytes("close") {}
  lemma KeepAliveIs() ensures KEEP_ALIVE == Bytes("keep-alive") {}
  lemma ContentLengthIs() ensures CONTENT_LENGTH == Bytes("content-length") {}
  lemma ColonIs() ensures Bytes(":") == [58] && Bytes(": ") == [58, 32] {}
  lemma LineEndIs() ensures Bytes("\r\n") == [CR, LF] && Bytes("\r\n\r\n") == [CR, LF] + [CR, LF] {}

  /** A line, in text. */
  lemma LineOfText(name: string, value: string)
    ensures Line(Field(Bytes(name), Bytes(value)), []) == Bytes(name + ":" + value + "\r\n")
  {
    BytesAppend(name, ":");
    BytesAppend(name + ":", value);
    BytesAppend(name + ":" + value, "\r\n");
    ColonIs();
    LineEndIs();
    hide Bytes;
    assert Bytes(name) + [58] + [] == Bytes(name) + [58];
  }

  lemma ConnectionLine(close: bool)
    ensures Line(Connection(close), []) == Bytes(if close then "connection:close\r\n" else "connection:keep-alive\r\n")
  {
    ConnectionIs();
    if close {
      CloseIs();
      LineOfText("connection", "close");
      assert "connection" + ":" + "close" + "\r\n" == "connection:close\r\n";
    } else {
      KeepAliveIs();
      LineOfText("connection", "keep-alive");
      assert "connection" + ":" + "keep-alive" + "\r\n" == "connection:keep-alive\r\n";
    }
  }

  lemma LengthLine(n: nat)
    ensures Line(ContentLength(n), [32]) == Bytes("content-length: ") + Decimal(n) + Bytes("\r\n")
  {
    ContentLengthIs();
    ColonIs();
    LineEndIs();
    BytesAppend("content-length", ": ");
    assert "content-length" + ": " == "content-length: ";
    hide Bytes, Decimal;
    Regroup(Bytes("content-length"), [58], [32]);
    assert [58] + [32] == [58, 32];
  }

  /** Behind the given headers dump prints its own lines and the body. */
  lemma DumpTailIs(close: bool, body: seq<Octet>)
    ensures DumpTail(close, body) ==
            Bytes(if close then "connection:close\r\n" else "connection:keep-alive\r\n") +
            (if body == [] then Bytes("\r\n\r\n")
             else Bytes("content-length: ") + Decimal(|body|) + Bytes("\r\n\r\n") + body)
  {
    ConnectionLine(close);
    LengthLine(|body|);
    LineEndIs();
    if body != [] {
      TwoLineEnds(Bytes("content-length: ") + Decimal(|body|), body);
    }
    hide Bytes, Decimal, Line, Connection, ContentLength;
  }

  lemma TwoLineEnds(start: seq<Octet>, body: seq<Octet>)
    ensures start + [CR, LF] + ([CR, LF] + body) == start + ([CR, LF] + [CR, LF]) + body
  {
  }

  // ----- What a parse of it reports --------------------------------------------

  predicate NamesConnection(f: Field) { SameName(f.name, Bytes("connection")) }

  /** The headers that are printed: all that are not named connection, and no other. */
  lemma {:induction false} KeptAre(headers: seq<Field>)
    ensures forall f :: f in Kept(headers) <==> f in headers && !NamesConnection(f)
    ensures (forall f <- headers :: !NamesConnection(f)) ==> Kept(headers) == headers
  {
    ConnectionIs();
    if headers != [] {
      assert headers == [headers[0]] + headers[1..];
      assert headers[0] in headers && forall f <- headers[1..] :: f in headers;
      KeptAre(headers[1..]);
      hide SameName, Bytes;
    }
  }

  /** They are printed in the order in which they are given. */
  lemma {:induction false} KeptInOrder(before: seq<Field>, f: Field, behind: seq<Field>)
    ensures Kept(before + [f] + behind) == Kept(before) + (if NamesConnection(f) then [] else [f]) + Kept(behind)
    decreases |before|
  {
    var all := before + [f] + behind;
    ConnectionIs();
    if before == [] {
      assert all[0] == f && all[1..] == behind;
    } else {
      assert all[0] == before[0] && all[1..] == before[1..] + [f] + behind;
      KeptInOrder(before[1..], f, behind);
      hide SameName, Bytes;
    }
  }

  lemma OwnFieldsAre(close: bool, body: seq<Octet>)
    ensures var own := OwnFields(close, body);
            && |own| == (if body == [] then 1 else 2)
            && own[0] == Field(Bytes("connection"), Bytes(if close then "close" else "keep-alive"))
            && (body != [] ==> own[1].name == Bytes("content-length") && Value(own[1].value) == |body|
                               && !NamesConnection(own[1]))
  {
    ConnectionIs();
    CloseIs();
    KeepAliveIs();
    ContentLengthIs();
    DecimalReads(|body|);
    hide Bytes, Decimal, Value;
  }

  /** A parse of what dump prints reports the given headers but those named connection; then one field of
      that name, which says whether the connection is closed; then, if there is a body, its length. */
  lemma DumpReports(headers: seq<Field>, close: bool, body: seq<Octet>)
    requires forall f <- headers :: Printable(f)
    ensures var r := Execute(13, Dump(headers, close, body)).fields;
            var n := |r| - if body == [] then 1 else 2;
            && 0 <= n
            && (forall f :: f in r[..n] <==> f in headers && !NamesConnection(f))
            && ((forall f <- headers :: !NamesConnection(f)) ==> r[..n] == headers)
            && r[n] == Field(Bytes("connection"), Bytes(if close then "close" else "keep-alive"))
            && (body != [] ==> r[n + 1].name == Bytes("content-length") && Value(r[n + 1].value) == |body|
                               && !NamesConnection(r[n + 1]))
  {
    DumpParses(headers, close, body);
    KeptAre(headers);
    OwnFieldsAre(close, body);
    hide Execute, Dump, Kept, OwnFields, NamesConnection, Bytes, Value;
    var r := Execute(13, Dump(headers, close, body)).fields;
    assert r[..|Kept(headers)|] == Kept(headers);
  }
}
