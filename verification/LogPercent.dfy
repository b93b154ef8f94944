/**
 * The doubled percent sign in the patterns of LogFormatter::init in src/log.cpp.
 */
module LogPercents {
  import opened Prelude
  import opened LogPatterns

  function Percents(n: nat): string { seq(n, _ => '%') }

  /** One percent sign of a run, and one more in the literal. */
  lemma PercentStep(n: nat, rest: string, nstr: string)
    requires 1 < n
    ensures var s := Percents(n) + rest;
            |s| > 1 && s[0] == s[1] == '%' && s[1..] == Percents(n - 1) + rest
    ensures nstr + "%" + Percents(n - 2) == nstr + Percents(n - 1)
  {
    assert "%" + Percents(n - 2) == Percents(n - 1);
    Regroup(nstr, "%", Percents(n - 2));
  }

  /** Of a run of n percent signs n - 1 go into the literal, where every other one is meant to, and the
      last begins a directive. */
  lemma {:induction false} PercentRun(n: nat, rest: string, nstr: string)
    requires 0 < n && (rest == [] || rest[0] != '%')
    ensures Parse(Percents(n) + rest, nstr) ==
            Literal(nstr + Percents(n - 1)) + Directive(rest[..SymbolEnd(rest)], Format(rest).0)
            + Parse(Format(rest).1, [])
    decreases n
  {
    var s := Percents(n) + rest;
    if n == 1 {
      assert s[1..] == rest && nstr + Percents(0) == nstr;
    } else {
      PercentStep(n, rest, nstr);
      PercentRun(n - 1, rest, nstr + "%");
      hide Percents, Literal, Directive, SymbolEnd, Format;
    }
  }

  /** The directive is empty, and nothing behind it is passed over, iff what follows is nothing or
      begins with a character that ends a symbol and opens no format. */
  lemma NothingSwallowed(rest: string)
    ensures SymbolEnd(rest) == 0 && Format(rest) == ([], rest) <==>
            rest == [] || (Stops(rest[0]) && rest[0] != '{')
  {
    if SymbolEnd(rest) == 0 {
      assert rest[0..] == rest;
      assert rest != [] && rest[0] == '{' ==> |Format(rest).1| < |rest|;
    }
  }

  /** A pending literal begins the first item, unless nothing comes at all. */
  lemma {:induction false} PendingFirst(s: string, nstr: string)
    requires nstr != []
    ensures var items := Parse(s, nstr); items == [] || (items[0].kind == 2 && nstr <= items[0].symbol)
    decreases |s|
  {
    if s != [] && (s[0] != '%' || (|s| > 1 && s[1] == '%')) {
      PendingFirst(s[1..], nstr + [s[0]]);
    }
  }

  lemma TwoPercents(rest: string)
    ensures "%%" + rest == Percents(2) + rest && Percents(1) == "%"
  {
  }

  /** A third percent sign makes the literal too long. */
  lemma ThirdPercent(rest: string, nstr: string)
    requires rest != [] && rest[0] == '%'
    ensures Parse("%%" + rest, nstr) != [Item(nstr + "%", [], 2)] + Parse(rest, [])
  {
    var s := "%%" + rest;
    assert s[1..] == "%" + rest && s[1..][1..] == rest;
    assert Parse(s, nstr) == Parse(rest, nstr + "%" + "%");
    PendingFirst(rest, nstr + "%" + "%");
  }

  lemma LetterBehind(rest: string, nstr: string, tail: seq<Item>, more: seq<Item>)
    requires rest != [] && !Stops(rest[0]) && (tail == [] || tail[0].kind == 2)
    ensures var items := Literal(nstr + "%") + Directive(rest[..SymbolEnd(rest)], Format(rest).0) + more;
            && items != [Item(nstr + "%", [], 2)] + tail
            && |items| > 1 && items[1].kind != 2 && items[1].symbol != [] && items[1].symbol[0] == rest[0]
  {
    assert rest[..SymbolEnd(rest)][0] == rest[0];
    assert ([Item(nstr + "%", [], 2)] + tail)[1..] == tail;
  }

  /** A format behind a doubled percent sign is passed over. */
  lemma FormatIsSwallowed(format: string, rest: string, nstr: string)
    requires '}' !in format
    ensures Parse("%%" + ("{" + format + "}" + rest), nstr) == [Item(nstr + "%", [], 2)] + Parse(rest, [])
  {
    var s := "{" + format + "}" + rest;
    TwoPercents(s);
    PercentRun(2, s, nstr);
    BracedFormat(format, rest);
    hide Parse, SymbolEnd, Format, Percents;
    assert s[..0] == [] && nstr + "%" != [];
  }

  lemma BracedFormat(format: string, rest: string)
    requires '}' !in format
    ensures var s := "{" + format + "}" + rest; s[0] == '{' && SymbolEnd(s) == 0 && Format(s) == (format, rest)
  {
    var s := "{" + format + "}" + rest;
    assert SymbolEnd(s) == 0;
    CloseOf(format, rest);
    hide SymbolEnd, Close;
  }

  // ----- What begins with a brace ----------------------------------------------

  /** Without a percent sign there are no items, and with one there are, unless it comes first. */
  lemma {:induction false} ItemsIffPercent(s: string, nstr: string)
    requires nstr != []
    ensures Parse(s, nstr) == [] <==> '%' !in s
    decreases |s|
  {
    if s != [] {
      assert s == [s[0]] + s[1..];
      if s[0] != '%' || (|s| > 1 && s[1] == '%') {
        ItemsIffPercent(s[1..], nstr + [s[0]]);
      }
    }
  }

  /** A pending literal adds at most one item. */
  lemma {:induction false} PendingCounts(s: string, nstr: string, lit: string)
    requires nstr == [] || lit != []
    ensures |Parse(s, nstr)| <= |Parse(s, lit)| <= |Parse(s, nstr)| + 1
    decreases |s|
  {
    if s != [] && (s[0] != '%' || (|s| > 1 && s[1] == '%')) {
      PendingCounts(s[1..], nstr + [s[0]], lit + [s[0]]);
    }
  }

  /** Items from inside a format: no closing brace in their symbols, and formats shorter than n. */
  ghost predicate Inner(items: seq<Item>, n: nat) {
    forall it <- items :: '}' !in it.symbol && |it.format| < n
  }

  /** How the scan of `g + "}" + r` gets past the brace: with a literal pending, or inside a symbol. */
  datatype Passage = Pending(text: string) | Through(sym: string)

  /** The directive whose symbol runs through the brace. */
  function Bridge(sym: string, r: string): Item {
    Item(sym + "}" + r[..SymbolEnd(r)], Format(r).0, if Format(r).0 == [] then 0 else 1)
  }

  /** What the scan collects behind the brace. */
  function Behind(r: string, w: Passage): seq<Item> {
    if w.Pending? then Parse(r, w.text) else [Bridge(w.sym, r)] + Parse(Format(r).1, [])
  }

  /** The items that begin in g, and then those behind. */
  ghost predicate Passes(g: string, r: string, nstr: string, q: seq<Item>, w: Passage) {
    && Inner(q, |g|) && (w.Through? ==> '}' !in w.sym)
    && Parse(g + "}" + r, nstr) == q + Behind(r, w)
  }

  /** A symbol that stops at k in h stops there in front of anything. */
  lemma {:induction false} SymbolStops(h: string, more: string)
    requires SymbolEnd(h) < |h|
    ensures SymbolEnd(h + more) == SymbolEnd(h)
    decreases |h|
  {
    assert (h + more)[0] == h[0];
    if !Stops(h[0]) {
      assert (h + more)[1..] == h[1..] + more;
      SymbolStops(h[1..], more);
    }
  }

  lemma {:induction false} SymbolRuns(h: string, more: string)
    requires SymbolEnd(h) == |h|
    ensures SymbolEnd(h + more) == |h| + SymbolEnd(more)
    decreases |h|
  {
    if h == [] {
      assert h + more == more;
    } else {
      assert (h + more)[0] == h[0] && (h + more)[1..] == h[1..] + more;
      SymbolRuns(h[1..], more);
    }
  }

  lemma CutBehind(h: string, more: string, k: nat)
    requires k <= |more|
    ensures var s := h + more;
            s[..|h| + k] == h + more[..k] && s[|h| + k..] == more[k..]
            && (k < |more| ==> s[|h| + k] == more[k] && s[|h| + k + 1..] == more[k + 1..])
  {
  }

  /** What a symbol that runs on leaves behind it. */
  lemma FormatShift(h: string, more: string)
    requires SymbolEnd(h) == |h|
    ensures var s := h + more;
            s[..SymbolEnd(s)] == h + more[..SymbolEnd(more)] && Format(s) == Format(more)
  {
    SymbolRuns(h, more);
    CutBehind(h, more, SymbolEnd(more));
    hide SymbolEnd, Close;
  }

  lemma BraceRuns(h: string)
    requires SymbolEnd(h) == |h|
    ensures SymbolEnd(h + "}") == |h| + 1
  {
    SymbolRuns(h, "}");
    assert "}"[1..] == [];
  }

  lemma ThroughBrace(h: string, r: string, nstr: string)
    requires SymbolEnd(h) == |h| && (h == [] || h[0] != '%')
    ensures Parse("%" + (h + "}" + r), nstr) == Literal(nstr) + Behind(r, Through(h))
  {
    BraceRuns(h);
    FormatShift(h + "}", r);
    DirectiveFirst(h + "}" + r, nstr);
    hide Parse, SymbolEnd, Format;
    Regroup(Literal(nstr), [Bridge(h, r)], Parse(Format(r).1, []));
  }

  /** The symbol at the start of h, and what follows it there and in front of anything. */
  lemma SymbolAlone(h: string, k: nat)
    requires k == SymbolEnd(h)
    ensures SymbolEnd(h[..k]) == k && SymbolEnd(h[k..]) == 0
  {
  }

  /** A directive in front of a text that ends its symbol at once. */
  lemma DirectiveBefore(sym: string, more: string, nstr: string)
    requires SymbolEnd(sym) == |sym| && SymbolEnd(more) == 0 && (sym + more == [] || (sym + more)[0] != '%')
    ensures Parse("%" + (sym + more), nstr) == Literal(nstr) + Directive(sym, Format(more).0) + Parse(Format(more).1, [])
  {
    DirectiveFirst(sym + more, nstr);
    FormatShift(sym, more);
    hide Parse, SymbolEnd, Format;
    assert sym + more[..0] == sym;
  }

  lemma ToBrace(h: string, k: nat, r: string, nstr: string)
    requires k == SymbolEnd(h) < |h| && h[k] == '{' && '}' !in h && h[0] != '%'
    ensures Parse("%" + (h + "}" + r), nstr) == Literal(nstr) + Directive(h[..k], h[k + 1..]) + Parse(r, [])
  {
    var format := h[k + 1..];
    var more := "{" + format + "}" + r;
    SymbolAlone(h, k);
    BracedFormat(format, r);
    hide Parse, SymbolEnd, Format;
    assert h + "}" + r == h[..k] + more && (h[..k] + more)[0] == h[0];
    DirectiveBefore(h[..k], more, nstr);
  }

  lemma BeforeBrace(h: string, k: nat, r: string, nstr: string)
    requires k == SymbolEnd(h) < |h| && h[k] != '{' && h[0] != '%'
    ensures Parse("%" + (h + "}" + r), nstr) == Literal(nstr) + Directive(h[..k], []) + Parse(h[k..] + "}" + r, [])
  {
    var more := h[k..] + "}" + r;
    SymbolAlone(h, k);
    assert more[0] == h[k] && SymbolEnd(more) == 0 && Format(more) == ([], more);
    hide Parse, SymbolEnd, Format;
    assert h + "}" + r == h[..k] + more && (h[..k] + more)[0] == h[0];
    DirectiveBefore(h[..k], more, nstr);
  }

  lemma InnerFirst(nstr: string, sym: string, format: string, n: nat)
    requires '}' !in nstr && '}' !in sym && |format| < n
    ensures Inner(Literal(nstr), n) && Inner(Literal(nstr) + Directive(sym, format), n)
  {
  }

  lemma InnerMore(first: seq<Item>, more: seq<Item>, m: nat, n: nat)
    requires Inner(first, n) && Inner(more, m) && m <= n
    ensures Inner(first + more, n)
  {
  }

  /** Every format without a closing brace is passed over in one of the two ways. */
  lemma {:induction false} Pass(g: string, r: string, nstr: string) returns (q: seq<Item>, w: Passage)
    requires '}' !in g && '}' !in nstr
    ensures Passes(g, r, nstr, q, w)
    ensures '%' in g && nstr != [] ==> q != [] && nstr <= q[0].symbol
    decreases |g|, 1
  {
    var s := g + "}" + r;
    if g == [] {
      q, w := [], Pending(nstr + "}");
      assert s[1..] == r;
    } else {
      var h := g[1..];
      assert g == [g[0]] + h && s[1..] == h + "}" + r;
      if g[0] != '%' || (h != [] && h[0] == '%') {
        q, w := Pass(h, r, nstr + [g[0]]);
      } else {
        q, w := PassDirective(h, r, nstr);
      }
    }
  }

  /** The directive behind a percent sign ends in front of the brace, with it, or beyond. */
  lemma PassDirective(h: string, r: string, nstr: string) returns (q: seq<Item>, w: Passage)
    requires '}' !in h && '}' !in nstr && (h == [] || h[0] != '%')
    ensures Passes("%" + h, r, nstr, q, w)
    ensures nstr != [] ==> q != [] && nstr <= q[0].symbol
    decreases |h| + 1, 0
  {
    var k := SymbolEnd(h);
    assert "%" + h + "}" + r == "%" + (h + "}" + r);
    assert '}' !in h[..k] && '}' !in h[k..];
    if k == |h| {
      q, w := Literal(nstr), Through(h);
      ThroughBrace(h, r, nstr);
      InnerFirst(nstr, [], [], |h| + 1);
    } else if h[k] == '{' {
      q, w := Literal(nstr) + Directive(h[..k], h[k + 1..]), Pending([]);
      ToBrace(h, k, r, nstr);
      InnerFirst(nstr, h[..k], h[k + 1..], |h| + 1);
    } else {
      var more;
      more, w := Pass(h[k..], r, []);
      q := Literal(nstr) + Directive(h[..k], []) + more;
      BeforeBrace(h, k, r, nstr);
      Regroup(Literal(nstr) + Directive(h[..k], []), more, Behind(r, w));
      InnerFirst(nstr, h[..k], [], |h| + 1);
      InnerMore(Literal(nstr) + Directive(h[..k], []), more, |h[k..]|, |h| + 1);
    }
    hide Parse, SymbolEnd, Format, Inner, Bridge, Directive;
  }

  /** No closing brace gets into a symbol where there is none. */
  lemma {:induction false} NoBraceInSymbols(s: string, nstr: string)
    requires '}' !in s && '}' !in nstr
    ensures forall it <- Parse(s, nstr) :: '}' !in it.symbol
    decreases |s|
  {
    if s == [] {
    } else if s[0] != '%' || (|s| > 1 && s[1] == '%') {
      NoBraceInSymbols(s[1..], nstr + [s[0]]);
    } else {
      var k := SymbolEnd(s[1..]);
      FormatShorter(s[1..]);
      assert '}' !in s[1..][..k] && '}' !in Format(s[1..]).1;
      NoBraceInSymbols(Format(s[1..]).1, []);
    }
  }

  /** Two scans of which the first has a directive with format y, where the second has only items from
      inside y in front of what it finds behind. */
  lemma DifferInside(y: string, q: seq<Item>, i: Item, tail: seq<Item>, p: seq<Item>, others: seq<Item>)
    requires Inner(p, |y|) && i.format == y && i.kind == 1
    requires |others| <= |tail| + 1 && (|others| == |tail| + 1 ==> others[0].kind == 2)
    ensures q + [i] + tail != p + others
  {
    var all, alls := q + [i] + tail, p + others;
    assert all[|q|] == i;
    if |q| < |p| {
      assert alls[|q|] == p[|q|] && p[|q|] in p;
    } else if |q| == |p| && others != [] {
      assert alls[|q|] == others[0];
    }
  }

  /** The same where the second has such a directive too: then they agree up to both. */
  lemma DifferAtBridge(y: string, q: seq<Item>, sym: string, tail: seq<Item>, p: seq<Item>, j: Item, others: seq<Item>)
    requires Inner(p, |y|) && (forall it <- q :: '}' !in it.symbol) && '}' in j.symbol
    ensures var i := Item(sym + "}", y, 1);
            q + [i] + tail == p + [j] + others ==> j == i && tail == others
  {
    var i := Item(sym + "}", y, 1);
    var all, alls := q + [i] + tail, p + [j] + others;
    assert all[|q|] == i && alls[|p|] == j;
    if |q| < |p| {
      assert alls[|q|] == p[|q|] && p[|q|] in p;
    } else if |q| > |p| {
      assert all[|p|] == q[|p|] && q[|p|] in q;
    } else {
      assert all[|q| + 1..] == tail && alls[|q| + 1..] == others;
    }
  }

  /** What begins with something else than a percent sign gives a literal first that begins so. */
  lemma OtherFirst(r: string)
    requires r != [] && r[0] != '%'
    ensures var items := Parse(r, []);
            items == [] || (items[0].kind == 2 && items[0].symbol != [] && items[0].symbol[0] == r[0])
  {
    PendingFirst(r[1..], [] + [r[0]]);
  }

  /** Behind an unclosed brace nothing has a closing one. */
  lemma BridgeToEnd(q: seq<Item>, sym: string, r: string)
    requires '}' !in r
    ensures q + Behind(r, Through(sym)) != Parse(r, [])
  {
    NoBraceInSymbols(r, []);
    var all := q + Behind(r, Through(sym));
    assert all[|q|] == Bridge(sym, r) && all[|q|].symbol[|sym|] == '}';
  }

  /** A symbol that ends with the only closing brace in it. */
  lemma OneBrace(a: string, b: string, x: string)
    requires '}' !in a && '}' !in b
    ensures a + "}" + x == b + "}" ==> x == []
  {
    var s, t := a + "}" + x, b + "}";
    assert s[|a|] == '}';
    if |a| < |b| {
      assert t[|a|] == b[|a|] && b[|a|] in b;
    }
  }

  /** A format that was found stood at the start. */
  lemma FormatBack(s: string)
    requires SymbolEnd(s) == 0 && Format(s).0 != []
    ensures '}' !in Format(s).0 && s == "{" + Format(s).0 + "}" + Format(s).1
  {
    assert s[1..] == s[0 + 1..];
  }

  /** A format with a percent sign in it, in front of anything, adds items. */
  lemma {:induction false} FormatAddsItems(f: string, r: string)
    requires '}' !in f && '%' in f
    ensures Parse("{" + f + "}" + r, []) != Parse(r, [])
    decreases |r|, 3
  {
    var q, w := Pass(f, r, "{");
    BraceOpens(f, r);
    hide Parse, Format, SymbolEnd, Inner;
    if w.Pending? {
      PendingCounts(r, [], w.text);
    } else {
      hide Behind;
      BridgeAddsItems(|f|, q, w.sym, r);
    }
  }

  lemma BraceOpens(f: string, r: string)
    ensures Parse("{" + f + "}" + r, []) == Parse(f + "}" + r, "{")
  {
    var s := "{" + f + "}" + r;
    assert s[0] == '{' && s[1..] == f + "}" + r && [] + [s[0]] == "{";
  }

  /** Whatever a symbol that runs through the brace takes from r, there are other items than r has. */
  lemma BridgeAddsItems(n: nat, q: seq<Item>, sym: string, r: string)
    requires Inner(q, n) && q != [] && "{" <= q[0].symbol && '}' !in sym
    ensures q + Behind(r, Through(sym)) != Parse(r, [])
    decreases |r|, 2
  {
    var all := q + Behind(r, Through(sym));
    hide Parse, Inner, Behind;
    if r != [] && !Stops(r[0]) {
      OtherFirst(r);
      assert all[0] == q[0] && q[0].symbol[0] == '{';
    } else if r == [] || r[0] != '{' {
      BridgeAlone(q, sym, r);
    } else {
      var c := Close(r[1..]);
      if c == |r[1..]| {
        BridgeToEnd(q, sym, r);
      } else {
        var y, r2 := r[1..][..c], r[1..][c + 1..];
        assert r == "{" + y + "}" + r2;
        BridgeToFormat(n, q, sym, y, r2);
      }
    }
  }

  lemma BridgeAlone(q: seq<Item>, sym: string, r: string)
    requires r == [] || (Stops(r[0]) && r[0] != '{')
    ensures q + Behind(r, Through(sym)) != Parse(r, [])
  {
    assert SymbolEnd(r) == 0 && Format(r).1 == r;
    hide Parse;
  }

  lemma BridgeToFormat(n: nat, q: seq<Item>, sym: string, y: string, r2: string)
    requires Inner(q, n) && q != [] && '}' !in sym && '}' !in y
    ensures var r := "{" + y + "}" + r2; q + Behind(r, Through(sym)) != Parse(r, [])
    decreases |y| + |r2| + 1, 1
  {
    var r := "{" + y + "}" + r2;
    var tail := Parse(r2, []);
    BracedFormat(y, r2);
    assert r[..0] == [] && sym + "}" + [] == sym + "}";
    hide Parse, SymbolEnd, Format;
    if '%' !in y {
      ParseText("{" + y + "}", r2, []);
      assert [] + ("{" + y + "}") == "{" + y + "}";
      PendingCounts(r2, [], "{" + y + "}");
    } else {
      BraceOpens(y, r2);
      var p, w := Pass(y, r2, "{");
      var i := Item(sym + "}", y, 1);
      assert q + Behind(r, Through(sym)) == q + [i] + tail;
      if w.Pending? {
        MaybePending(r2, w.text);
        DifferInside(y, q, i, tail, p, Parse(r2, w.text));
      } else if q + [i] + tail == p + Behind(r2, w) {
        var j, others := Bridge(w.sym, r2), Parse(Format(r2).1, []);
        Regroup(p, [j], others);
        assert j.symbol[|w.sym|] == '}';
        DifferAtBridge(y, q, sym, tail, p, j, others);
        OneBrace(w.sym, sym, r2[..SymbolEnd(r2)]);
        FormatBack(r2);
        FormatAddsItems(y, Format(r2).1);
      }
    }
  }

  lemma MaybePending(r: string, text: string)
    ensures var others, tail := Parse(r, text), Parse(r, []);
            |others| <= |tail| + 1 && (|others| == |tail| + 1 ==> others[0].kind == 2)
  {
    if text != [] {
      PendingCounts(r, [], text);
      PendingFirst(r, text);
    }
  }

  /** A longer pending literal makes a difference where there is a percent sign. */
  lemma {:induction false} PendingMatters(s: string, nstr: string, lit: string)
    requires |nstr| < |lit| && '%' in s
    ensures Parse(s, nstr) != Parse(s, lit)
    decreases |s|
  {
    assert s == [s[0]] + s[1..];
    if s[0] != '%' || (|s| > 1 && s[1] == '%') {
      PendingMatters(s[1..], nstr + [s[0]], lit + [s[0]]);
    } else {
      var items, more := Parse(s, nstr), Parse(s, lit);
      assert more[0].symbol == lit && (nstr != [] ==> items[0].symbol == nstr);
    }
  }

  lemma PlainBefore(r: string, lit: string)
    requires lit != []
    ensures Parse(r, []) == Parse(r, lit) <==> '%' !in r
  {
    if '%' in r {
      PendingMatters(r, [], lit);
    } else {
      ItemsIffPercent(r, lit);
      PendingCounts(r, [], lit);
    }
  }

  lemma ClosedSwallows(f: string, r: string)
    requires '}' !in f
    ensures Parse(r, []) == Parse("{" + f + "}" + r, []) <==> '%' !in "{" + f + "}" + r
  {
    var s := "{" + f + "}";
    assert '%' in s + r <==> '%' in f || '%' in r;
    hide Parse;
    if '%' in f {
      FormatAddsItems(f, r);
    } else {
      ParseText(s, r, []);
      assert [] + s == s;
      PlainBefore(r, s);
    }
  }

  /** What a brace opens is passed over without loss iff there is no percent sign anywhere behind. */
  lemma BraceSwallows(rest: string)
    requires rest != [] && rest[0] == '{'
    ensures Parse(Format(rest).1, []) == Parse(rest, []) <==> '%' !in rest
  {
    var body := rest[1..];
    var c := Close(body);
    assert rest == "{" + body && SymbolEnd(rest) == 0 && rest[0 + 1..] == body;
    if c == |body| {
      assert Format(rest).1 == [];
      ItemsIffPercent(body, [] + "{");
    } else {
      var f, r := body[..c], body[c + 1..];
      assert Format(rest).1 == r;
      hide Parse, Format, SymbolEnd;
      assert rest == "{" + f + "}" + r;
      ClosedSwallows(f, r);
    }
  }

  /** A doubled percent sign stands for one percent sign, as it is meant to, iff it ends the pattern, or
      what follows is no letter, digit, closing brace or percent sign, or is an opening brace with no
      percent sign anywhere behind. A letter or digit, and a closing brace, is taken for the beginning of
      a directive. */
  lemma DoubledPercent(rest: string, nstr: string)
    ensures Parse("%%" + rest, nstr) == [Item(nstr + "%", [], 2)] + Parse(rest, []) <==>
            rest == [] || (if rest[0] == '{' then '%' !in rest else Stops(rest[0]) && rest[0] != '%')
    ensures rest != [] && !Stops(rest[0]) ==>
              var items := Parse("%%" + rest, nstr);
              |items| > 1 && items[1].kind != 2 && items[1].symbol != [] && items[1].symbol[0] == rest[0]
  {
    if rest != [] && rest[0] == '%' {
      ThirdPercent(rest, nstr);
    } else {
      PercentRun(2, rest, nstr);
      TwoPercents(rest);
      if rest != [] && rest[0] == '{' {
        BraceSwallows(rest);
        BehindEmptyDirective(nstr, rest);
      } else if rest != [] && !Stops(rest[0]) {
        OtherFirst(rest);
        LetterBehind(rest, nstr, Parse(rest, []), Parse(Format(rest).1, []));
      } else {
        NothingSwallowed(rest);
      }
    }
  }

  lemma BehindEmptyDirective(nstr: string, rest: string)
    requires rest != [] && rest[0] == '{'
    ensures var first, tail, more := [Item(nstr + "%", [], 2)], Parse(rest, []), Parse(Format(rest).1, []);
            Literal(nstr + "%") + Directive(rest[..SymbolEnd(rest)], Format(rest).0) + more == first + tail <==> more == tail
  {
    var first, tail, more := [Item(nstr + "%", [], 2)], Parse(rest, []), Parse(Format(rest).1, []);
    assert rest[..SymbolEnd(rest)] == [];
    hide Parse, Format;
    assert (first + tail)[1..] == tail && (first + more)[1..] == more;
  }

  /** `%%d` is a percent sign and a date, and `%%%%` three percent signs. */
  lemma PercentBeforeLetter()
    ensures Parse("%%d", []) == [Item("%", [], 2), Item("d", [], 0)]
    ensures Parse("%%%%", []) == [Item("%%%", [], 2)]
  {
    PercentRun(2, "d", []);
    assert Percents(2) + "d" == "%%d" && [] + Percents(1) == "%";
    assert SymbolEnd("d") == 1 by { assert "d"[1..] == []; }
    assert Format("d") == ([], "d"[1..]) && "d"[1..] == [] && "d"[..1] == "d";
    PercentRun(4, [], []);
    assert Percents(4) + [] == "%%%%" && [] + Percents(3) == "%%%";
  }
}
