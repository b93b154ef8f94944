/**
 * The directives in the patterns of LogFormatter::init in src/log.cpp: what belongs to a symbol, and what
 * becomes of a format that is not closed.
 */
module LogDirectives {
  import opened Prelude
  import opened LogPatterns
  import opened LogPercents

  /** A digit, an upper-case or a lower-case letter, or a closing brace, by its code. */
  predicate SymbolLetter(c: char) {
    var n := c as int;
    48 <= n <= 57 || 65 <= n <= 90 || 97 <= n <= 122 || n == 125
  }

  /** A symbol is made of these. */
  lemma SymbolLetters(c: char)
    ensures !Stops(c) <==> SymbolLetter(c)
  {
  }

  /** The whole of such a text is the symbol, whatever ends it behind. */
  lemma {:induction false} SymbolGoesOn(sym: string)
    requires forall c <- sym :: SymbolLetter(c)
    ensures SymbolEnd(sym) == |sym|
    decreases |sym|
  {
    if sym != [] {
      assert sym[0] in sym && forall c <- sym[1..] :: c in sym;
      SymbolLetters(sym[0]);
      SymbolGoesOn(sym[1..]);
    }
  }

  /** A directive that ends with the pattern, or in front of anything else than a brace. */
  lemma BareDirectiveIs(sym: string, more: string, nstr: string)
    requires sym != [] && (forall c <- sym :: SymbolLetter(c))
    requires more != [] ==> !SymbolLetter(more[0]) && more[0] != '{'
    ensures Parse("%" + (sym + more), nstr) == Literal(nstr) + [Item(sym, [], 0)] + Parse(more, [])
  {
    SymbolGoesOn(sym);
    if more != [] {
      SymbolLetters(more[0]);
    }
    NotPercent(sym);
    assert SymbolEnd(more) == 0 && Format(more) == ([], more);
    assert (sym + more)[0] == sym[0];
    hide Parse, SymbolEnd, Format;
    DirectiveBefore(sym, more, nstr);
  }

  lemma NotPercent(sym: string)
    requires sym != [] && sym[0] in sym && forall c <- sym :: SymbolLetter(c)
    ensures sym[0] != '%'
  {
    SymbolLetters(sym[0]);
  }

  /** A format that is closed; an empty one leaves no trace. */
  lemma ClosedDirectiveIs(sym: string, format: string, more: string, nstr: string)
    requires sym != [] && (forall c <- sym :: SymbolLetter(c)) && '}' !in format
    ensures Parse("%" + (sym + ("{" + format + "}" + more)), nstr) ==
            Literal(nstr) + [Item(sym, format, if format == [] then 0 else 1)] + Parse(more, [])
  {
    SymbolGoesOn(sym);
    NotPercent(sym);
    BracedFormat(format, more);
    assert (sym + ("{" + format + "}" + more))[0] == sym[0];
    hide Parse, SymbolEnd, Format;
    DirectiveBefore(sym, "{" + format + "}" + more, nstr);
  }

  /** A format that is not closed is dropped, with all of the pattern that is left. */
  lemma UnclosedFormatIsDropped(sym: string, body: string, nstr: string)
    requires sym != [] && (forall c <- sym :: SymbolLetter(c)) && '}' !in body
    ensures Parse("%" + (sym + ("{" + body)), nstr) == Literal(nstr) + [Item(sym, [], 0)]
  {
    SymbolGoesOn(sym);
    NotPercent(sym);
    var more := "{" + body;
    assert more[1..] == body && more[0] == '{' && SymbolEnd(more) == 0;
    assert Close(body) == |body|;
    assert Format(more) == ([], []);
    assert (sym + more)[0] == sym[0];
    assert Parse([], []) == [];
    hide Parse, SymbolEnd, Format;
    DirectiveBefore(sym, more, nstr);
    assert Literal(nstr) + [Item(sym, [], 0)] + [] == Literal(nstr) + [Item(sym, [], 0)];
  }

  const OPEN := Item("[", [], 2)
  const DATE := Item("d", "%Y-%m-%d %H:%M:%S", 1)
  const BETWEEN := Item("] [", [], 2)
  const NAME := Item("N", [], 0)

  lemma StartFits()
    ensures WellFormed([OPEN, DATE, BETWEEN, NAME])
  {
    assert Printable(OPEN) && Printable(DATE) && Printable(BETWEEN) && Printable(NAME);
    assert Fits(OPEN, DATE) && Fits(DATE, BETWEEN) && Fits(BETWEEN, NAME);
    hide Printable, Fits;
  }

  lemma PrintedBehind(item: Item, rest: seq<Item>, text: string, behind: string)
    requires PrintOne(item) == text && Print(rest) == behind
    ensures Print([item] + rest) == text + behind
  {
    PrintFirst([item] + rest);
    assert ([item] + rest)[1..] == rest;
  }

  lemma DatePrints()
    ensures PrintOne(DATE) == "%d{%Y-%m-%d %H:%M:%S}"
  {
  }

  lemma StartPrints()
    ensures Print([OPEN, DATE, BETWEEN, NAME]) == "[" + ("%d{%Y-%m-%d %H:%M:%S}" + ("] [" + "%N"))
  {
    assert "%N" + [] == "%N" && Print([]) == [] && PrintOne(NAME) == "%N";
    DatePrints();
    hide Print;
    PrintedBehind(NAME, [], "%N", []);
    PrintedBehind(BETWEEN, [NAME], "] [", "%N");
    hide PrintOne;
    PrintedBehind(DATE, [BETWEEN] + [NAME], "%d{%Y-%m-%d %H:%M:%S}", "] [" + "%N");
    assert [OPEN] + ([DATE] + ([BETWEEN] + [NAME])) == [OPEN, DATE, BETWEEN, NAME];
    OpenPrints();
    PrintedBehind(OPEN, [DATE] + ([BETWEEN] + [NAME]), "[", "%d{%Y-%m-%d %H:%M:%S}" + ("] [" + "%N"));
  }

  lemma OpenPrints()
    ensures PrintOne(OPEN) == "["
  {
  }

  /** The start of the pattern that a logger is made with. */
  lemma DefaultStartIs()
    ensures Parse("[" + ("%d{%Y-%m-%d %H:%M:%S}" + ("] [" + "%N")), []) == [OPEN, DATE, BETWEEN, NAME]
  {
    hide Parse, Print, WellFormed;
    StartFits();
    StartPrints();
    ScanOfPrinted([OPEN, DATE, BETWEEN, NAME]);
  }
}
