/**
 * Headers that reach HttpSession::recvRequest in src/http/http_session.cpp line by line.
 */
module HttpPieces {
  import opened Prelude
  import opened HttpHeaders
  import opened HttpSessions
  import opened HttpSplits

  /** Each group of lines is one piece. */
  function Texts(groups: seq<seq<Field>>): seq<seq<Octet>> {
    if groups == [] then [] else [Lines(groups[0])] + Texts(groups[1..])
  }

  function AllOf(groups: seq<seq<Field>>): seq<Field> {
    if groups == [] then [] else groups[0] + AllOf(groups[1..])
  }

  ghost predicate AllPrintable(groups: seq<seq<Field>>) {
    forall g <- groups :: forall f <- g :: Printable(f)
  }

  lemma PrintableParts(groups: seq<seq<Field>>)
    requires AllPrintable(groups) && groups != []
    ensures (forall f <- groups[0] :: Printable(f)) && AllPrintable(groups[1..])
  {
    assert groups[0] in groups;
    assert forall g <- groups[1..] :: g in groups;
    hide Printable;
  }

  /** A piece of whole lines reports them and leaves the scan between two lines. */
  lemma PieceOfLines(fs: seq<Field>)
    requires forall f <- fs :: Printable(f)
    ensures var n := Execute(13, Lines(fs)); n.cs == 13 && n.fields == fs
  {
    hide Printable, Lines;
    var buf := Lines(fs);
    assert buf[0..0 + |buf|] == buf;
    var n := ScanLines(buf, Enter(13), fs);
    assert [] + fs == fs;
  }

  /** The piece with the empty line, whatever stands behind it. */
  lemma LastPiece(behind: seq<Octet>)
    ensures var n := Execute(13, [CR, LF] + behind); n.cs == 348 && n.fields == []
  {
    var buf := [CR, LF] + behind;
    assert buf[0..0 + 2] == [CR, LF];
    ScanBlankLine(buf, Enter(13));
  }

  /** Pieces of whole lines, and any piece behind them, are cleanly cut. */
  lemma {:induction false} WholeLinesAreClean(groups: seq<seq<Field>>, last: seq<Octet>)
    requires AllPrintable(groups)
    ensures CleanCuts(13, Texts(groups) + [last])
    decreases |groups|
  {
    var pieces := Texts(groups) + [last];
    if groups != [] {
      assert pieces[0] == Lines(groups[0]) && pieces[1..] == Texts(groups[1..]) + [last];
      PrintableParts(groups);
      PieceOfLines(groups[0]);
      WholeLinesAreClean(groups[1..], last);
    }
  }

  /** A header that arrives in pieces of whole lines reports all of them, however they are grouped. */
  lemma {:induction false} WholeLinesArrive(groups: seq<seq<Field>>, behind: seq<Octet>)
    requires AllPrintable(groups)
    ensures Feed(13, Texts(groups) + [[CR, LF] + behind]) == (348, AllOf(groups))
    decreases |groups|
  {
    var pieces := Texts(groups) + [[CR, LF] + behind];
    if groups == [] {
      LastPiece(behind);
      assert pieces == [[CR, LF] + behind];
      FeedLast(13, [CR, LF] + behind);
    } else {
      assert pieces[0] == Lines(groups[0]) && pieces[1..] == Texts(groups[1..]) + [[CR, LF] + behind];
      PrintableParts(groups);
      PieceOfLines(groups[0]);
      WholeLinesArrive(groups[1..], behind);
    }
  }
}
