/**
 * The pattern scanner of LogFormatter::init in src/log.cpp: it cuts a pattern such as
 * `%d{%H:%M} [%p] %m%n` into literals and directives.
 */
module LogPatterns {
  import opened Prelude

  /** What the scanner collects; kind 0 is a directive, 1 a directive with a format, 2 a literal. */
  datatype Item = Item(symbol: string, format: string, kind: nat)

  predicate IsAlnum(c: char) { '0' <= c <= '9' || 'a' <= c <= 'z' || 'A' <= c <= 'Z' }

  /** A character that ends a symbol: a closing brace does not. */
  predicate Stops(c: char) { !IsAlnum(c) && c != '}' }

  // ----- The scan on what is left of the pattern -------------------------------

  /** The length of the symbol at the start. */
  function SymbolEnd(s: string): (k: nat)
    ensures k <= |s| && (k < |s| ==> Stops(s[k])) && forall j | 0 <= j < k :: !Stops(s[j])
  {
    if s == [] || Stops(s[0]) then 0 else 1 + SymbolEnd(s[1..])
  }

  /** Where the first closing brace stands. */
  function Close(s: string): (k: nat)
    ensures k <= |s| && (k < |s| ==> s[k] == '}') && forall j | 0 <= j < k :: s[j] != '}'
  {
    if s == [] || s[0] == '}' then 0 else 1 + Close(s[1..])
  }

  /** The format behind the symbol and where the scan goes on, from what follows the percent sign. */
  function Format(s: string): (string, string) {
    var k := SymbolEnd(s);
    if k == |s| || s[k] != '{' then ([], s[k..])
    else
      var body := s[k + 1..];
      var c := Close(body);
      if c == |body| then ([], []) else (body[..c], body[c + 1..])
  }

  function Literal(text: string): seq<Item> { if text == [] then [] else [Item(text, [], 2)] }

  function Directive(symbol: string, format: string): seq<Item> {
    if symbol == [] then [] else [Item(symbol, format, if format == [] then 0 else 1)]
  }

  lemma FormatShorter(s: string)
    ensures |Format(s).1| <= |s|
  {
  }

  /** The items of the pattern s behind the pending literal nstr. */
  function Parse(s: string, nstr: string): seq<Item>
    decreases |s|
  {
    if s == [] then []
    else if s[0] != '%' then Parse(s[1..], nstr + [s[0]])
    else if |s| > 1 && s[1] == '%' then Parse(s[1..], nstr + "%")
    else
      FormatShorter(s[1..]);
      var symbol, format := s[1..][..SymbolEnd(s[1..])], Format(s[1..]);
      Literal(nstr) + Directive(symbol, format.0) + Parse(format.1, [])
  }

  // ----- The scanner -----------------------------------------------------------

  /** m_pattern[m], which at the end is the terminating NUL. */
  function CharAt(s: string, m: nat): char
    requires m <= |s|
  {
    if m < |s| then s[m] else '\0'
  }

  /** What is left at i, which may have passed the end by one. */
  function From(s: string, i: nat): string { if i <= |s| then s[i..] else [] }

  /** The symbol behind the percent sign at i ends at m. */
  ghost predicate SymbolTo(pattern: string, i: nat, m: nat) {
    i < m <= |pattern| && forall j | i < j < m :: !Stops(pattern[j])
  }

  /** The format that begins behind the brace at k goes on to m. */
  ghost predicate FormatTo(pattern: string, k: nat, m: nat) {
    k < m <= |pattern| + 1 && forall j | k < j < m && j < |pattern| :: pattern[j] != '}'
  }

  /** A symbol, and what follows it in the pattern. */
  lemma EndOfSymbol(pattern: string, i: nat, m: nat)
    requires SymbolTo(pattern, i, m) && (m < |pattern| ==> Stops(pattern[m]))
    ensures var s := pattern[i + 1..];
            SymbolEnd(s) == m - i - 1 && s[..SymbolEnd(s)] == pattern[i + 1..m] && s[SymbolEnd(s)..] == pattern[m..]
  {
    var s, k := pattern[i + 1..], m - i - 1;
    assert forall j | 0 <= j < k :: s[j] == pattern[j + i + 1];
    assert k < |s| ==> s[k] == pattern[m];
    assert SymbolEnd(s) == k;
  }

  /** The format behind the brace at k, and what follows it. */
  lemma EndOfFormat(pattern: string, k: nat, m: nat)
    requires FormatTo(pattern, k, m) && m <= |pattern| && (m < |pattern| ==> pattern[m] == '}')
    ensures var body := pattern[k + 1..];
            && Close(body) == m - k - 1 && body[..Close(body)] == pattern[k + 1..m]
            && (m < |pattern| ==> body[Close(body) + 1..] == pattern[m + 1..])
  {
    var body, c := pattern[k + 1..], m - k - 1;
    assert forall j | 0 <= j < c :: body[j] == pattern[j + k + 1];
    assert c < |body| ==> body[c] == pattern[m];
    assert Close(body) == c;
  }

  /** Behind the percent sign at i stand this symbol and this format, and then what is left from m on. */
  ghost predicate Directed(pattern: string, i: nat, symbol: string, fmt: string, m: nat)
    requires i < |pattern|
  {
    var s := pattern[i + 1..];
    symbol == s[..SymbolEnd(s)] && Format(s) == (fmt, From(pattern, m))
  }

  /** A directive without a format ends at m. */
  lemma BareDirective(pattern: string, i: nat, m: nat)
    requires SymbolTo(pattern, i, m) && (m < |pattern| ==> Stops(pattern[m]) && pattern[m] != '{')
    ensures Directed(pattern, i, pattern[i + 1..m], [], m)
  {
    EndOfSymbol(pattern, i, m);
    hide SymbolEnd, SymbolTo;
  }

  /** A directive with a brace at k ends behind the closing brace at m, or with the pattern. */
  lemma BracedDirective(pattern: string, i: nat, k: nat, m: nat)
    requires SymbolTo(pattern, i, k) && k < |pattern| && pattern[k] == '{'
    requires FormatTo(pattern, k, m) && m <= |pattern| && (m < |pattern| ==> pattern[m] == '}')
    ensures Directed(pattern, i, pattern[i + 1..k], if m < |pattern| then pattern[k + 1..m] else [], m + 1)
  {
    EndOfSymbol(pattern, i, k);
    EndOfFormat(pattern, k, m);
    hide SymbolEnd, SymbolTo, FormatTo, Close;
    var s := pattern[i + 1..];
    assert s[SymbolEnd(s)] == pattern[k..][0];
    assert s[SymbolEnd(s) + 1..] == s[SymbolEnd(s)..][1..] == pattern[k..][1..] == pattern[k + 1..];
  }

  /** Where the inner loop is: in the symbol, or in the format that begins at `begin`. */
  ghost predicate Within(pattern: string, i: nat, m: nat, status: int, begin: nat, symbol: string) {
    && i < m <= |pattern| + 1
    && (status == 0 ==> symbol == [] && SymbolTo(pattern, i, m))
    && (status == 1 ==>
          && i + 1 < begin <= |pattern| && begin <= m && pattern[begin - 1] == '{'
          && SymbolTo(pattern, i, begin - 1) && FormatTo(pattern, begin - 1, m) && symbol == pattern[i + 1..begin - 1])
  }

  lemma WithinSymbol(pattern: string, i: nat, m: nat, symbol: string)
    requires Within(pattern, i, m, 0, 0, symbol)
    ensures m <= |pattern|
    ensures var c := CharAt(pattern, m);
            if !Stops(c) then Within(pattern, i, m + 1, 0, 0, symbol)
            else if c == '{' then Within(pattern, i, m + 1, 1, m + 1, pattern[i + 1..m])
            else Directed(pattern, i, pattern[i + 1..m], [], m)
  {
    if Stops(CharAt(pattern, m)) && CharAt(pattern, m) != '{' {
      BareDirective(pattern, i, m);
    }
    hide Directed, Stops;
  }

  lemma WithinFormat(pattern: string, i: nat, m: nat, begin: nat, symbol: string)
    requires Within(pattern, i, m, 1, begin, symbol)
    ensures m == |pattern| + 1 ==> Directed(pattern, i, symbol, [], m)
    ensures m <= |pattern| ==>
              if CharAt(pattern, m) == '}' then begin <= m && Directed(pattern, i, symbol, pattern[begin..m], m + 1)
              else Within(pattern, i, m + 1, 1, begin, symbol)
  {
    if m == |pattern| + 1 {
      BracedDirective(pattern, i, begin - 1, |pattern|);
    } else if CharAt(pattern, m) == '}' {
      BracedDirective(pattern, i, begin - 1, m);
    }
    hide Directed;
  }

  /** The inner loop, for the percent sign at i: every index it uses is at most the size. */
  method ScanDirective(pattern: string, i: nat) returns (symbol: string, fmt: string, m: nat)
    requires i < |pattern| && pattern[i] == '%'
    ensures i < m <= |pattern| + 1 && Directed(pattern, i, symbol, fmt, m)
  {
    var n := |pattern|;
    symbol, fmt, m := [], [], i + 1;
    var fmtStatus, fmtBegin: nat := 0, 0;
    assert Within(pattern, i, m, 0, 0, []);
    hide Within, Directed;
    while m <= n
      invariant fmt == [] && (fmtStatus == 0 || fmtStatus == 1) && i < m <= n + 1
      invariant Within(pattern, i, m, fmtStatus, fmtBegin, symbol)
      invariant fmtStatus == 0 ==> fmtBegin == 0
    {
      var c := CharAt(pattern, m);
      if fmtStatus == 0 {
        WithinSymbol(pattern, i, m, symbol);
      } else {
        WithinFormat(pattern, i, m, fmtBegin, symbol);
      }
      if c != '{' && c != '}' && !IsAlnum(c) && fmtStatus == 0 {
        symbol := pattern[i + 1..m];
        return;
      }
      if c == '{' && fmtStatus == 0 {
        symbol := pattern[i + 1..m];
        fmtBegin := m + 1;
        fmtStatus := 1;
      }
      if c == '}' && fmtStatus == 1 {
        fmt := pattern[fmtBegin..m];
        m := m + 1;
        return;
      }
      m := m + 1;
    }
    if fmtStatus == 0 {
      WithinSymbol(pattern, i, m, symbol);
    } else {
      WithinFormat(pattern, i, m, fmtBegin, symbol);
    }
  }

  lemma ParseFrom(pattern: string, i: nat, nstr: string)
    requires i < |pattern|
    ensures pattern[i] != '%' ==> Parse(pattern[i..], nstr) == Parse(pattern[i + 1..], nstr + [pattern[i]])
    ensures pattern[i] == '%' && i + 1 < |pattern| && pattern[i + 1] == '%' ==>
              Parse(pattern[i..], nstr) == Parse(pattern[i + 1..], nstr + "%")
    ensures pattern[i] == '%' && !(i + 1 < |pattern| && pattern[i + 1] == '%') ==>
              var rest := pattern[i + 1..];
              var format := Format(rest);
              Parse(pattern[i..], nstr) ==
              Literal(nstr) + Directive(rest[..SymbolEnd(rest)], format.0) + Parse(format.1, [])
  {
    var s := pattern[i..];
    assert s[1..] == pattern[i + 1..] && s[0] == pattern[i];
  }

  /** What has been collected, and what the rest will give. */
  ghost predicate Ahead(pattern: string, vec: seq<Item>, i: nat, nstr: string) {
    vec + Parse(From(pattern, i), nstr) == Parse(pattern, [])
  }

  lemma AheadAtEnds(pattern: string, vec: seq<Item>, i: nat, nstr: string)
    ensures Ahead(pattern, [], 0, [])
    ensures i >= |pattern| && Ahead(pattern, vec, i, nstr) ==> vec == Parse(pattern, [])
  {
    var all := Parse(pattern, []);
    assert Parse([], nstr) == [];
    hide Parse;
    assert pattern[0..] == pattern && [] + all == all;
    if i >= |pattern| {
      assert From(pattern, i) == [] && vec + [] == vec;
    }
  }

  lemma AheadCharacter(pattern: string, vec: seq<Item>, i: nat, nstr: string)
    requires i < |pattern| && Ahead(pattern, vec, i, nstr)
    ensures pattern[i] != '%' ==> Ahead(pattern, vec, i + 1, nstr + [pattern[i]])
    ensures pattern[i] == '%' && i + 1 < |pattern| && pattern[i + 1] == '%' ==> Ahead(pattern, vec, i + 1, nstr + "%")
  {
    hide Parse;
    ParseFrom(pattern, i, nstr);
  }

  lemma AheadDirective(pattern: string, vec: seq<Item>, i: nat, nstr: string, symbol: string, fmt: string, m: nat)
    requires i < |pattern| && pattern[i] == '%' && !(i + 1 < |pattern| && pattern[i + 1] == '%')
    requires Ahead(pattern, vec, i, nstr) && Directed(pattern, i, symbol, fmt, m)
    ensures Ahead(pattern, vec + Literal(nstr) + Directive(symbol, fmt), m, [])
  {
    hide Parse, Format, SymbolEnd, Literal, Directive;
    ParseFrom(pattern, i, nstr);
    var x, y, rest := Literal(nstr), Directive(symbol, fmt), Parse(From(pattern, m), []);
    assert vec + (x + y + rest) == vec + x + y + rest;
  }

  /** The scan of LogFormatter::init. */
  method Scan(pattern: string) returns (vec: seq<Item>)
    ensures vec == Parse(pattern, [])
  {
    hide Ahead, Directed;
    vec := [];
    var nstr := [];
    var i: nat := 0;
    AheadAtEnds(pattern, vec, i, nstr);
    while i < |pattern|
      invariant i <= |pattern| + 1 && Ahead(pattern, vec, i, nstr)
      decreases |pattern| + 1 - i
    {
      AheadCharacter(pattern, vec, i, nstr);
      if pattern[i] != '%' {
        nstr := nstr + [pattern[i]];
        i := i + 1;
        continue;
      }
      if i + 1 < |pattern| && pattern[i + 1] == '%' {
        nstr := nstr + "%";
        i := i + 1;
        continue;
      }
      ghost var before, pending := vec, nstr;
      if nstr != [] {
        vec := vec + [Item(nstr, [], 2)];
        nstr := [];
      }
      assert vec == before + Literal(pending);
      var symbol, fmt, m := ScanDirective(pattern, i);
      AheadDirective(pattern, before, i, pending, symbol, fmt, m);
      if symbol != [] {
        if fmt != [] {
          vec := vec + [Item(symbol, fmt, 1)];
        } else {
          vec := vec + [Item(symbol, [], 0)];
        }
      }
      assert vec == before + Literal(pending) + Directive(symbol, fmt);
      i := m;
    }
    AheadAtEnds(pattern, vec, i, nstr);
  }

  // ----- Printing and scanning -------------------------------------------------

  /** A pattern written item by item. */
  function Print(items: seq<Item>): string {
    if items == [] then [] else PrintOne(items[0]) + Print(items[1..])
  }

  function PrintOne(item: Item): string {
    if item.kind == 2 then item.symbol
    else if item.kind == 1 then "%" + item.symbol + "{" + item.format + "}"
    else "%" + item.symbol
  }

  /** Symbols of letters and digits, formats without a closing brace, literals without a percent sign. */
  predicate Printable(item: Item) {
    && item.symbol != [] && item.kind <= 2 && (item.kind == 1 <==> item.format != [])
    && (item.kind == 2 ==> '%' !in item.symbol)
    && (item.kind != 2 ==> forall c <- item.symbol :: IsAlnum(c))
    && '}' !in item.format
  }

  /** Two literals do not stand side by side, and what follows a bare directive ends its symbol. */
  predicate Fits(item: Item, next: Item) {
    && (item.kind == 2 ==> next.kind != 2)
    && (item.kind == 0 && next.kind == 2 && next.symbol != [] ==> Stops(next.symbol[0]) && next.symbol[0] != '{')
  }

  predicate WellFormed(items: seq<Item>) {
    && (forall item <- items :: Printable(item))
    && (forall k | 0 < k < |items| :: Fits(items[k - 1], items[k]))
  }

  /** A literal is collected character by character. */
  lemma {:induction false} ParseText(text: string, rest: string, nstr: string)
    requires '%' !in text
    ensures Parse(text + rest, nstr) == Parse(rest, nstr + text)
    decreases |text|
  {
    if text == [] {
      assert text + rest == rest && nstr + text == nstr;
    } else {
      var all := text + rest;
      assert all[0] == text[0] && all[1..] == text[1..] + rest;
      ParseText(text[1..], rest, nstr + [text[0]]);
      assert nstr + [text[0]] + text[1..] == nstr + text;
    }
  }

  /** A percent sign in front of something else than another one. */
  lemma DirectiveFirst(s: string, nstr: string)
    requires s == [] || s[0] != '%'
    ensures Parse("%" + s, nstr) ==
            Literal(nstr) + Directive(s[..SymbolEnd(s)], Format(s).0) + Parse(Format(s).1, [])
  {
    assert ("%" + s)[1..] == s;
  }

  /** A directive in front of `rest`, behind a pending literal. */
  lemma ParseDirective(item: Item, rest: string, nstr: string)
    requires Printable(item) && item.kind != 2
    requires item.kind == 0 && rest != [] ==> Stops(rest[0]) && rest[0] != '{'
    ensures Parse(PrintOne(item) + rest, nstr) == Literal(nstr) + [item] + Parse(rest, [])
  {
    var tail := if item.kind == 1 then "{" + item.format + "}" + rest else rest;
    var s := item.symbol + tail;
    PrintedDirective(item, rest, tail);
    FormatOfPrinted(item, rest, tail);
    DirectiveOf(item);
    hide Parse, SymbolEnd, Format, PrintOne, Printable, Directive;
    DirectiveFirst(s, nstr);
  }

  lemma PrintedDirective(item: Item, rest: string, tail: string)
    requires Printable(item) && item.kind != 2
    requires tail == if item.kind == 1 then "{" + item.format + "}" + rest else rest
    ensures PrintOne(item) + rest == "%" + (item.symbol + tail)
    ensures (item.symbol + tail)[0] == item.symbol[0] != '%'
  {
    assert IsAlnum(item.symbol[0]);
    if item.kind == 1 {
      Regroup("%" + item.symbol, "{" + item.format + "}", rest);
    }
    Regroup("%", item.symbol, tail);
  }

  lemma DirectiveOf(item: Item)
    requires Printable(item) && item.kind != 2
    ensures Directive(item.symbol, item.format) == [item]
  {
  }

  lemma SymbolOf(symbol: string, tail: string)
    requires (forall c <- symbol :: IsAlnum(c)) && (tail != [] ==> Stops(tail[0]))
    ensures var s := symbol + tail; SymbolEnd(s) == |symbol| && s[..|symbol|] == symbol && s[|symbol|..] == tail
  {
    var s := symbol + tail;
    forall j | 0 <= j < |symbol| ensures !Stops(s[j]) {
      assert s[j] in symbol;
    }
    assert tail != [] ==> s[|symbol|] == tail[0];
  }

  lemma FormatOfPrinted(item: Item, rest: string, tail: string)
    requires Printable(item) && item.kind != 2
    requires tail == if item.kind == 1 then "{" + item.format + "}" + rest else rest
    requires item.kind == 0 && rest != [] ==> Stops(rest[0]) && rest[0] != '{'
    ensures var s := item.symbol + tail;
            SymbolEnd(s) == |item.symbol| && s[..|item.symbol|] == item.symbol && Format(s) == (item.format, rest)
  {
    var s, k := item.symbol + tail, |item.symbol|;
    SymbolOf(item.symbol, tail);
    hide SymbolEnd;
    if item.kind == 1 {
      assert s[k..][1..] == s[k + 1..];
      CloseOf(item.format, rest);
    }
  }

  lemma CloseOf(format: string, rest: string)
    requires '}' !in format
    ensures var tail := "{" + format + "}" + rest;
            var body := tail[1..];
            Close(body) == |format| < |body| && body[..|format|] == format && body[|format| + 1..] == rest
  {
    var body := ("{" + format + "}" + rest)[1..];
    assert body == format + "}" + rest;
    forall j | 0 <= j < |format| ensures body[j] != '}' {
      assert body[j] in format;
    }
    assert body[|format|] == '}';
  }

  /** What a printed list of items begins with. */
  lemma PrintStart(items: seq<Item>)
    requires items != [] && Printable(items[0])
    ensures Print(items) != [] && Print(items)[0] == if items[0].kind == 2 then items[0].symbol[0] else '%'
  {
  }

  /** All items but a literal at the end. */
  function Kept(items: seq<Item>): seq<Item> {
    if items != [] && items[|items| - 1].kind == 2 then items[..|items| - 1] else items
  }

  /** The scan of a printed pattern gives back its items, but for a literal at the end, which is lost. */
  lemma ScanOfPrinted(items: seq<Item>)
    requires WellFormed(items)
    ensures Parse(Print(items), []) == Kept(items)
    ensures Parse(Print(items), []) == items <==> items == [] || items[|items| - 1].kind != 2
  {
    ScanPending(items, []);
    assert Literal([]) + items == items;
  }

  lemma {:induction false} ScanPending(items: seq<Item>, nstr: string)
    requires WellFormed(items) && (nstr != [] && items != [] ==> items[0].kind != 2)
    ensures Parse(Print(items), nstr) == Kept(Literal(nstr) + items)
    decreases |items|
  {
    if items != [] {
      var item, rest := items[0], items[1..];
      WellFormedTail(items);
      PrintFirst(items);
      hide Parse, Print, PrintOne, Printable, WellFormed, Fits, Kept;
      if item.kind == 2 {
        LiteralThen(item.symbol, Print(rest), item);
        ScanPending(rest, item.symbol);
        assert Literal(nstr) == [] && Literal(item.symbol) == [item] && [item] + rest == items && [] + items == items;
      } else {
        ParseDirective(item, Print(rest), nstr);
        ScanPending(rest, []);
        KeptBehind(Literal(nstr), item, rest);
        Regroup(Literal(nstr), [item], rest);
        assert [item] + rest == items;
      }
    }
  }

  /** A well-formed list without its first item, and how that is followed. */
  lemma WellFormedTail(items: seq<Item>)
    requires WellFormed(items) && items != []
    ensures WellFormed(items[1..]) && Printable(items[0]) && items[0].symbol != []
    ensures items[0].kind == 2 && items[1..] != [] ==> items[1..][0].kind != 2
    ensures items[0].kind == 0 ==> var s := Print(items[1..]); s != [] ==> Stops(s[0]) && s[0] != '{'
  {
    var rest := items[1..];
    assert items[0] in items && forall item <- rest :: item in items;
    forall k | 0 < k < |rest| ensures Fits(rest[k - 1], rest[k]) {
      assert Fits(items[k], items[k + 1]);
    }
    if rest != [] {
      assert Fits(items[0], items[1]);
      PrintStart(rest);
    }
  }

  lemma PrintFirst(items: seq<Item>)
    requires items != []
    ensures Print(items) == PrintOne(items[0]) + Print(items[1..])
  {
  }

  lemma LiteralThen(text: string, rest: string, item: Item)
    requires Printable(item) && item.kind == 2 && item.symbol == text
    ensures Parse(PrintOne(item) + rest, []) == Parse(rest, text) && Literal(text) == [item]
  {
    ParseText(text, rest, []);
    assert [] + text == text;
  }

  lemma KeptBehind(before: seq<Item>, item: Item, rest: seq<Item>)
    requires item.kind != 2
    ensures Kept(before + [item] + rest) == before + [item] + Kept([] + rest)
  {
  }
}
