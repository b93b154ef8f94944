/**
 * A header that arrives in pieces: src/http/http_session.cpp calls the automaton of
 * src/http/http11_parser.cpp once for each, and each call forgets the marks of the last.
 */
module HttpSplits {
  import opened Prelude
  import opened HttpHeaders

  /** A call that ends neither in an error nor at the end of the header has consumed its buffer. */
  lemma {:induction false} UnfinishedConsumesAll(buf: seq<Octet>, s: Scan)
    requires Within(buf, s) && HeaderState(Finish(buf, s).cs)
    ensures Finish(buf, s).p == |buf|
    decreases |buf| - s.p, s.cs
  {
    if s.p < |buf| && HeaderState(s.cs) {
      UnfinishedConsumesAll(buf, Advance(buf, s));
    }
  }

  lemma AdvancePrefix(a: seq<Octet>, b: seq<Octet>, s: Scan)
    requires Within(a, s) && HeaderState(s.cs) && s.p < |a|
    ensures Within(a + b, s) && Advance(a + b, s) == Advance(a, s)
  {
    assert (a + b)[s.p] == a[s.p];
    assert (a + b)[s.mark..s.p] == a[s.mark..s.p];
    if s.fieldStart + s.fieldLen <= s.p {
      assert (a + b)[s.fieldStart..s.fieldStart + s.fieldLen] == a[s.fieldStart..s.fieldStart + s.fieldLen];
    }
  }

  /** More bytes behind change nothing about the scan of the first ones. */
  lemma {:induction false} FinishPrefix(a: seq<Octet>, b: seq<Octet>, s: Scan)
    requires Within(a, s)
    ensures Within(a + b, s) && Within(a + b, Finish(a, s))
    ensures Finish(a + b, s) == Finish(a + b, Finish(a, s))
    decreases |a| - s.p, s.cs
  {
    if s.p < |a| && HeaderState(s.cs) {
      AdvancePrefix(a, b, s);
      FinishPrefix(a, b, Advance(a, s));
    }
  }

  /** The same state at the same place, one scan in a + b, the other in b alone. */
  ghost predicate SamePlace(a: seq<Octet>, b: seq<Octet>, s: Scan, t: Scan) {
    Within(a + b, s) && Within(b, t) && s.cs == t.cs && s.p == |a| + t.p
  }

  lemma AdvanceSamePlace(a: seq<Octet>, b: seq<Octet>, s: Scan, t: Scan)
    requires SamePlace(a, b, s, t) && HeaderState(t.cs) && t.p < |b|
    ensures SamePlace(a, b, Advance(a + b, s), Advance(b, t))
  {
    assert (a + b)[s.p] == b[t.p];
  }

  /** The states are the same for every split, whatever the marks. */
  lemma {:induction false} FinishSamePlace(a: seq<Octet>, b: seq<Octet>, s: Scan, t: Scan)
    requires SamePlace(a, b, s, t)
    ensures SamePlace(a, b, Finish(a + b, s), Finish(b, t))
    decreases |b| - t.p, t.cs
  {
    if t.p < |b| && HeaderState(t.cs) {
      AdvanceSamePlace(a, b, s, t);
      FinishSamePlace(a, b, Advance(a + b, s), Advance(b, t));
    }
  }

  /** The marks that still matter say the same. */
  ghost predicate Aligned(a: seq<Octet>, s: Scan, t: Scan) {
    && (t.cs == 14 || t.cs == 15 || t.cs == 16 || t.cs == 18 ==> s.fieldStart == |a| + t.fieldStart)
    && (t.cs == 15 || t.cs == 16 ==> s.fieldLen == t.fieldLen)
    && (t.cs == 16 ==> s.mark == |a| + t.mark)
  }

  lemma AdvanceAligned(a: seq<Octet>, b: seq<Octet>, s: Scan, t: Scan, before: seq<Field>)
    requires SamePlace(a, b, s, t) && Aligned(a, s, t) && s.fields == before + t.fields
    requires HeaderState(t.cs) && t.p < |b|
    ensures var n, m := Advance(a + b, s), Advance(b, t);
            Aligned(a, n, m) && n.fields == before + m.fields
  {
    assert (a + b)[s.p] == b[t.p];
    if t.cs == 16 {
      assert (a + b)[s.mark..s.p] == b[t.mark..t.p];
    }
    if t.cs == 15 || t.cs == 16 {
      assert (a + b)[s.fieldStart..s.fieldStart + s.fieldLen] == b[t.fieldStart..t.fieldStart + t.fieldLen];
    }
  }

  lemma {:induction false} FinishAligned(a: seq<Octet>, b: seq<Octet>, s: Scan, t: Scan, before: seq<Field>)
    requires SamePlace(a, b, s, t) && Aligned(a, s, t) && s.fields == before + t.fields
    ensures Finish(a + b, s).fields == before + Finish(b, t).fields
    decreases |b| - t.p, t.cs
  {
    hide Advance;
    if t.p < |b| && HeaderState(t.cs) {
      AdvanceProgress(b, t);
      AdvanceSamePlace(a, b, s, t);
      AdvanceAligned(a, b, s, t, before);
      FinishAligned(a, b, Advance(a + b, s), Advance(b, t), before);
    }
  }

  /** The scan in b alone takes the name to be shorter than it is. */
  ghost predicate ShortName(a: seq<Octet>, s: Scan, t: Scan) {
    && (t.cs == 14 || t.cs == 18 ==> s.fieldStart < |a| + t.fieldStart)
    && (t.cs == 15 || t.cs == 16 ==> t.fieldLen < s.fieldLen)
    && (t.cs == 14 || t.cs == 15 || t.cs == 16 || t.cs == 18)
  }

  /** One step keeps it, or reports a field whose name is too short, or reports nothing any more. */
  lemma AdvanceShortName(a: seq<Octet>, b: seq<Octet>, s: Scan, t: Scan)
    requires SamePlace(a, b, s, t) && ShortName(a, s, t) && HeaderState(t.cs) && t.p < |b|
    ensures var n, m := Advance(a + b, s), Advance(b, t);
            || (ShortName(a, n, m) && n.fields == s.fields && m.fields == t.fields)
            || (!HeaderState(m.cs) && n.fields == s.fields && m.fields == t.fields)
            || (exists f, g :: n.fields == s.fields + [f] && m.fields == t.fields + [g] && |g.name| < |f.name|)
  {
    assert (a + b)[s.p] == b[t.p];
    var n, m := Advance(a + b, s), Advance(b, t);
    var act := Table(t.cs, b[t.p]).act;
    if act == Emit || act == EmitEmpty {
      var f, g := n.fields[|s.fields|], m.fields[|t.fields|];
      assert n.fields == s.fields + [f] && m.fields == t.fields + [g];
    }
  }

  lemma {:induction false} FieldsGrow(buf: seq<Octet>, s: Scan)
    requires Within(buf, s)
    ensures s.fields <= Finish(buf, s).fields
    decreases |buf| - s.p, s.cs
  {
    if s.p < |buf| && HeaderState(s.cs) {
      FieldsGrow(buf, Advance(buf, s));
    }
  }

  /** From there on either both report nothing more, or the first fields they report differ. */
  lemma {:induction false} FinishShortName(a: seq<Octet>, b: seq<Octet>, s: Scan, t: Scan)
    requires SamePlace(a, b, s, t) && ShortName(a, s, t)
    ensures var r, q := Finish(a + b, s).fields, Finish(b, t).fields;
            || (r == s.fields && q == t.fields)
            || (|s.fields| < |r| && |t.fields| < |q| && r[|s.fields|] != q[|t.fields|])
    decreases |b| - t.p, t.cs
  {
    hide Advance;
    if t.p < |b| && HeaderState(t.cs) {
      var n, m := Advance(a + b, s), Advance(b, t);
      AdvanceProgress(b, t);
      AdvanceSamePlace(a, b, s, t);
      AdvanceShortName(a, b, s, t);
      FinishStep(a + b, s);
      FinishStep(b, t);
      FieldsGrow(a + b, n);
      FieldsGrow(b, m);
      if HeaderState(m.cs) && ShortName(a, n, m) && n.fields == s.fields && m.fields == t.fields {
        FinishShortName(a, b, n, m);
      }
    }
  }

  /** A scan that begins between lines marks every name, and marks it before its end. */
  ghost predicate NameMarked(s: Scan) {
    && (s.cs == 14 || s.cs == 18 ==> s.fieldStart < s.p)
    && (s.cs == 15 || s.cs == 16 ==> 0 < s.fieldLen)
  }

  lemma {:induction false} NamesAreMarked(buf: seq<Octet>, s: Scan)
    requires Within(buf, s) && NameMarked(s)
    ensures NameMarked(Finish(buf, s))
    decreases |buf| - s.p, s.cs
  {
    if s.p < |buf| && HeaderState(s.cs) {
      NamesAreMarked(buf, Advance(buf, s));
    }
  }

  /** The cut falls between lines, or inside a line end. */
  predicate BetweenLines(cs: nat) { cs == 13 || cs == 17 }

  predicate CleanCut(cs: nat, b: seq<Octet>) {
    BetweenLines(cs) || (cs == 18 && b != [] && b[0] == LF)
  }

  /** A header fed in two calls goes through the same states as in one, for every cut. */
  lemma SplitStates(cs: nat, a: seq<Octet>, b: seq<Octet>)
    requires HeaderState(Execute(cs, a).cs)
    ensures var n, r := Execute(cs, a), Execute(cs, a + b);
            var q := Execute(n.cs, b);
            n.p == |a| && r.cs == q.cs && r.p == |a| + q.p
  {
    var n := Execute(cs, a);
    UnfinishedConsumesAll(a, Enter(cs));
    FinishPrefix(a, b, Enter(cs));
    FinishSamePlace(a, b, n, Enter(n.cs));
  }

  /** It reports the same fields iff the cut falls between lines or inside a line end, or no more
      fields come. */
  lemma SplitHeader(cs: nat, a: seq<Octet>, b: seq<Octet>)
    requires BetweenLines(cs) && HeaderState(Execute(cs, a).cs)
    ensures var n := Execute(cs, a);
            var q := Execute(n.cs, b);
            Execute(cs, a + b).fields == n.fields + q.fields <==> CleanCut(n.cs, b) || q.fields == []
  {
    var n := Execute(cs, a);
    var t := Enter(n.cs);
    SplitStates(cs, a, b);
    FinishPrefix(a, b, Enter(cs));
    NamesAreMarked(a, Enter(cs));
    if CleanCut(n.cs, b) {
      CleanFields(a, b, n);
    } else {
      FinishShortName(a, b, n, t);
    }
  }

  lemma CleanFields(a: seq<Octet>, b: seq<Octet>, n: Scan)
    requires SamePlace(a, b, n, Enter(n.cs)) && CleanCut(n.cs, b)
    ensures Finish(a + b, n).fields == n.fields + Execute(n.cs, b).fields
  {
    if BetweenLines(n.cs) {
      FinishAligned(a, b, n, Enter(n.cs), n.fields);
    } else {
      AdvanceSamePlace(a, b, n, Enter(n.cs));
      FinishStep(a + b, n);
      FinishStep(b, Enter(n.cs));
    }
  }

  /** The calls of recvRequest on the pieces as they arrive: the last state, and the fields reported. */
  function Feed(cs: nat, pieces: seq<seq<Octet>>): (nat, seq<Field>)
    decreases |pieces|
  {
    if pieces == [] || !HeaderState(cs) then (cs, [])
    else
      var n := Execute(cs, pieces[0]);
      var rest := Feed(n.cs, pieces[1..]);
      (rest.0, n.fields + rest.1)
  }

  /** Every cut that matters falls between lines or inside a line end. */
  ghost predicate CleanCuts(cs: nat, pieces: seq<seq<Octet>>)
    decreases |pieces|
  {
    |pieces| > 1 && HeaderState(cs) ==>
      var n := Execute(cs, pieces[0]);
      HeaderState(n.cs) ==> BetweenLines(n.cs) && CleanCuts(n.cs, pieces[1..])
  }

  /** A header that arrives in any number of cleanly cut pieces is parsed as if in one. */
  lemma {:induction false} CleanPiecesAreOne(cs: nat, pieces: seq<seq<Octet>>)
    requires BetweenLines(cs) && CleanCuts(cs, pieces)
    ensures var r := Execute(cs, Concat(pieces)); Feed(cs, pieces) == (r.cs, r.fields)
    decreases |pieces|
  {
    if pieces == [] {
    } else {
      var a, b := pieces[0], Concat(pieces[1..]);
      var n := Execute(cs, a);
      FinishPrefix(a, b, Enter(cs));
      assert n.fields + [] == n.fields;
      if HeaderState(n.cs) {
        if |pieces| > 1 {
          CleanPiecesAreOne(n.cs, pieces[1..]);
          SplitStates(cs, a, b);
          SplitHeader(cs, a, b);
        } else {
          assert pieces[1..] == [] && b == [] && a + b == a;
          assert Feed(n.cs, pieces[1..]) == (n.cs, []);
        }
      } else {
        assert Feed(n.cs, pieces[1..]) == (n.cs, []);
      }
    }
  }

  /** A line cut inside its name loses the first part of the name, for every name and value. */
  lemma CutNameIsLost(first: seq<Octet>, rest: seq<Octet>, value: seq<Octet>)
    requires Token(first) && Token(rest) && FieldValue(value)
    ensures Execute(13, first).cs == 14
    ensures Feed(13, [first, rest + [58] + value + [CR, LF]]) == (13, [Field(rest, value)])
    ensures Execute(13, first + (rest + [58] + value + [CR, LF])).fields == [Field(first + rest, value)]
  {
    var more := rest + [58] + value + [CR, LF];
    CutFirst(first);
    CutRest(rest, value);
    var whole := Field(first + rest, value);
    assert first + more == Line(whole, []);
    assert (first + more)[0..|first + more|] == first + more;
    var n := ScanLine(first + more, Enter(13), whole, []);
    var tail: seq<seq<Octet>> := [more];
    assert [first, more][1..] == tail && tail[1..] == [];
    var lost := Field(rest, value);
    assert Feed(13, []) == (13, []);
    assert Feed(14, tail) == (13, [lost] + []) && [lost] + [] == [lost];
    assert Feed(13, [first, more]) == (13, [] + [lost]) && [] + [lost] == [lost];
  }

  lemma CutFirst(first: seq<Octet>)
    requires Token(first)
    ensures Execute(13, first).cs == 14 && Execute(13, first).fields == []
  {
    StandsAt(first, 0, first);
    FinishStep(first, Enter(13));
    ScanName(first, Advance(first, Enter(13)), |first|);
  }

  lemma CutRest(rest: seq<Octet>, value: seq<Octet>)
    requires Token(rest) && FieldValue(value)
    ensures var n := Execute(14, rest + [58] + value + [CR, LF]); n.fields == [Field(rest, value)] && n.cs == 13
  {
    var behind := value + [CR, LF];
    var more := rest + ([58] + behind);
    assert more == rest + [58] + value + [CR, LF];
    assert Stands(more, 0, rest + ([58] + behind));
    assert [] + value + [CR, LF] == behind;
    var n := CutRestScan(more, rest, value, behind);
    FinishAtEnd(more, n);
  }

  lemma FinishAtEnd(buf: seq<Octet>, s: Scan)
    requires Within(buf, s) && s.p == |buf|
    ensures Finish(buf, s) == s
  {
  }

  lemma CutRestScan(buf: seq<Octet>, rest: seq<Octet>, value: seq<Octet>, behind: seq<Octet>) returns (n: Scan)
    requires Token(rest) && FieldValue(value) && behind == [] + value + [CR, LF]
    requires Stands(buf, 0, rest + ([58] + behind))
    ensures Within(buf, n) && Finish(buf, Enter(14)) == Finish(buf, n)
    ensures n.cs == 13 && n.p == |rest| + 1 + |behind| && n.fields == [Field(rest, value)]
  {
    hide Finish, Stands, Within, Token, FieldValue;
    StandsSplit(buf, 0, rest, [58] + behind);
    StandsSplit(buf, |rest|, [58], behind);
    var s := CutRestName(buf, rest);
    var blanks: seq<Octet> := [];
    n := ScanRest(buf, s, Field(rest, value), blanks);
  }

  /** The rest of a name, scanned from inside it, passes for the whole. */
  lemma CutRestName(buf: seq<Octet>, rest: seq<Octet>) returns (s: Scan)
    requires Token(rest) && Stands(buf, 0, rest) && Stands(buf, |rest|, [58])
    ensures Within(buf, s) && Finish(buf, Enter(14)) == Finish(buf, s)
    ensures s.cs == 15 && s.p == |rest| + 1 && s.fields == [] && s.bodyStart == 0
    ensures buf[s.fieldStart..s.fieldStart + s.fieldLen] == rest
  {
    StandsAt(buf, 0, rest);
    StandsAt(buf, |rest|, [58]);
    assert buf[0..|rest|] == rest;
    hide Finish, Stands, NameNext;
    ScanName(buf, Enter(14), |rest|);
    var t := Enter(14).(p := |rest|);
    FinishStep(buf, t);
    s := Advance(buf, t);
  }
}
