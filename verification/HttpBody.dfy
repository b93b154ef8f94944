/**
 * The body of a request: HttpSession::recvRequest in src/http/http_session.cpp on top of
 * Stream::readFixSize and Stream::writeFixSize in src/stream.cpp.
 */
module HttpSessions {
  import opened Prelude
  import opened HttpHeaders
  import opened HttpSplits

  function Min(a: nat, b: nat): nat { if a < b then a else b }

  /** A buffer after `data` has been stored at `at`. */
  function Put(s: seq<Octet>, at: nat, data: seq<Octet>): seq<Octet>
    requires at + |data| <= |s|
  {
    s[..at] + data + s[at + |data|..]
  }

  /** The other end of a connection: it has `pending` to send and room to take `room` bytes. */
  class Peer {
    var pending: seq<Octet>
    var taken: seq<Octet>
    var room: nat

    constructor (pending: seq<Octet>)
      ensures this.pending == pending && taken == [] && room == 0
    {
      this.pending, taken, room := pending, [], 0;
    }

    /** A read returns any positive number of the next bytes, or 0 at the end of the stream. */
    method Read(buf: array<Octet>, at: nat, max: nat) returns (len: nat)
      requires at + max <= buf.Length
      modifies this`pending, buf
      ensures len <= max && len <= |old(pending)| && (len == 0 <==> max == 0 || old(pending) == [])
      ensures pending == old(pending[len..])
      ensures buf[..] == Put(old(buf[..]), at, old(pending[..len]))
    {
      if max == 0 || pending == [] {
        return 0;
      }
      len :| 0 < len <= max && len <= |pending|;
      forall k | 0 <= k < len {
        buf[at + k] := pending[k];
      }
      pending := pending[len..];
    }

    /** A write takes any positive number of the bytes, or 0 when nothing more is taken. */
    method Write(data: seq<Octet>) returns (len: nat)
      modifies this`taken, this`room
      ensures len <= |data| && len <= old(room) && (len == 0 <==> data == [] || old(room) == 0)
      ensures taken == old(taken) + data[..len] && room == old(room) - len
    {
      if data == [] || room == 0 {
        return 0;
      }
      len :| 0 < len <= |data| && len <= room;
      taken := taken + data[..len];
      room := room - len;
    }
  }

  /** The next `len` bytes of what is left of a stream, and what is then left. */
  lemma Next(all: seq<Octet>, done: nat, len: nat)
    requires done + len <= |all|
    ensures all[done..][len..] == all[done + len..] && |all[done..][..len]| == len
    ensures all[done..][..len] == all[done..done + len]
  {
  }

  lemma PutFront(s: seq<Octet>, data: seq<Octet>)
    requires |data| <= |s|
    ensures Put(s, 0, data)[..|data|] == data
  {
  }

  lemma PutNothing(s: seq<Octet>, at: nat)
    requires at <= |s|
    ensures Put(s, at, []) == s
  {
  }

  /** The first `offset` bytes of the stream have gone to `at` in the buffer, which was `was`. */
  ghost predicate Arrived(all: seq<Octet>, was: seq<Octet>, at: nat, offset: nat, left: seq<Octet>, buf: seq<Octet>) {
    offset <= |all| && at + offset <= |was| && left == all[offset..] && buf == Put(was, at, all[..offset])
  }

  lemma ArrivedNothing(all: seq<Octet>, was: seq<Octet>, at: nat)
    requires at <= |was|
    ensures Arrived(all, was, at, 0, all, was)
  {
    PutNothing(was, at);
    assert all[..0] == [] && all[0..] == all;
  }

  /** `len` more bytes behind the first `offset`. */
  lemma ArrivedMore(all: seq<Octet>, was: seq<Octet>, at: nat, offset: nat, len: nat, left: seq<Octet>, buf: seq<Octet>)
    requires Arrived(all, was, at, offset, left, buf) && len <= |left| && at + offset + len <= |was|
    ensures Arrived(all, was, at, offset + len, left[len..], Put(buf, at + offset, left[..len]))
  {
    assert all[..offset] + left[..len] == all[..offset + len];
  }

  /** Where the loop stops: all that was asked for has come, or all there is. */
  lemma ArrivedEnd(all: seq<Octet>, was: seq<Octet>, at: nat, offset: nat, length: nat, left: seq<Octet>, buf: seq<Octet>)
    requires Arrived(all, was, at, offset, left, buf) && offset <= length && (offset == length || left == [])
    requires at + length <= |was|
    ensures offset == Min(length, |all|) && left == all[offset..] && buf == Put(was, at, all[..offset])
  {
  }

  /** One read of the loop. */
  method ReadPart(peer: Peer, buf: array<Octet>, at: nat, offset: nat, rest: nat,
                  ghost all: seq<Octet>, ghost was: seq<Octet>)
    returns (len: nat)
    requires |was| == buf.Length && at + offset + rest <= buf.Length && 0 < rest
    requires Arrived(all, was, at, offset, peer.pending, buf[..])
    modifies peer`pending, buf
    ensures len <= rest && Arrived(all, was, at, offset + len, peer.pending, buf[..])
    ensures len == 0 ==> peer.pending == []
  {
    ghost var left, now := peer.pending, buf[..];
    hide Put, Arrived;
    len := peer.Read(buf, at + offset, rest);
    ArrivedMore(all, was, at, offset, len, left, now);
  }

  /** Stream::readFixSize, its size_t result narrowed to int: the next `length` bytes arrive in order
      however the reads cut them, or the stream has ended and all of it has arrived. */
  method ReadFixSize(peer: Peer, buf: array<Octet>, at: nat, length: nat) returns (r: int)
    requires at + length <= buf.Length
    modifies peer`pending, buf
    ensures var n := Min(length, |old(peer.pending)|);
            && r == (if n == length then AsInt32(length) else 0)
            && buf[..] == Put(old(buf[..]), at, old(peer.pending[..n]))
            && peer.pending == old(peer.pending[n..])
  {
    var offset: nat, rest: nat := 0, length;
    ghost var all, was := peer.pending, buf[..];
    ArrivedNothing(all, was, at);
    hide Put, AsInt32, Arrived, Min;
    while rest > 0
      invariant offset + rest == length
      invariant Arrived(all, was, at, offset, peer.pending, buf[..])
    {
      var len := ReadPart(peer, buf, at, offset, rest, all, was);
      if len == 0 {
        ArrivedEnd(all, was, at, offset, length, peer.pending, buf[..]);
        return 0;
      }
      offset, rest := offset + len, rest - len;
    }
    ArrivedEnd(all, was, at, offset, length, peer.pending, buf[..]);
    r := AsInt32(length);
  }

  /** Stream::writeFixSize: the peer gets `data` in order, or as much of it as it takes. */
  method WriteFixSize(peer: Peer, data: seq<Octet>) returns (r: int)
    modifies peer`taken, peer`room
    ensures var n := Min(|data|, old(peer.room));
            && r == (if n == |data| then AsInt32(|data|) else 0)
            && peer.taken == old(peer.taken) + data[..n] && peer.room == old(peer.room) - n
  {
    var offset: nat, rest: nat := 0, |data|;
    while rest > 0
      invariant offset + rest == |data| && offset <= old(peer.room)
      invariant peer.taken == old(peer.taken) + data[..offset] && peer.room == old(peer.room) - offset
    {
      var len := peer.Write(data[offset..]);
      if len == 0 {
        return 0;
      }
      offset, rest := offset + len, rest - len;
    }
    r := AsInt32(|data|);
  }

  datatype Request = Request(fields: seq<Field>, body: seq<Octet>)

  /** The header scanned so far: what is left to scan decides where and how the scan ends. */
  ghost predicate ScannedTo(all: seq<Octet>, done: nat, cs: nat)
    requires done <= |all|
  {
    var whole, rest := Execute(13, all), Execute(cs, all[done..]);
    whole.cs == rest.cs && whole.p == done + rest.p
  }

  /** A call on the next bytes either leaves the scan going, with nothing left over, or ends it for good. */
  lemma ScanOn(all: seq<Octet>, done: nat, cs: nat, len: nat)
    requires HeaderState(cs) && 0 < len && done + len <= |all| && ScannedTo(all, done, cs)
    ensures var n := Execute(cs, all[done..][..len]);
            && (HeaderState(n.cs) ==> n.p == len && n.bodyStart == 0 && ScannedTo(all, done + len, n.cs))
            && (!HeaderState(n.cs) ==> n.cs in {0, 348} && Execute(13, all).cs == n.cs && Execute(13, all).p == done + n.p)
            && (n.cs == 348 ==> 0 < n.p)
  {
    var a, b := all[done..][..len], all[done + len..];
    assert all[done..] == a + b;
    FinishOutcome(a, Enter(cs));
    if HeaderState(Execute(cs, a).cs) {
      SplitStates(cs, a, b);
    } else {
      FinishPrefix(a, b, Enter(cs));
    }
  }

  /** A scan ends in a header state with no body begun, in an error, or after at least one byte. */
  lemma {:induction false} FinishOutcome(buf: seq<Octet>, s: Scan)
    requires Within(buf, s) && HeaderState(s.cs) && s.bodyStart == 0
    ensures var n := Finish(buf, s);
            (HeaderState(n.cs) && n.bodyStart == 0) || n.cs == 0 || (n.cs == 348 && s.p < n.p)
    decreases |buf| - s.p
  {
    if s.p < |buf| {
      var n := Advance(buf, s);
      if HeaderState(n.cs) {
        FinishOutcome(buf, n);
      }
    }
  }

  lemma FeedLast(cs: nat, last: seq<Octet>)
    requires HeaderState(cs)
    ensures var n := Execute(cs, last); Feed(cs, [last]) == (n.cs, n.fields)
  {
    var pieces: seq<seq<Octet>> := [last];
    var n := Execute(cs, last);
    assert pieces[1..] == [] && Feed(n.cs, pieces[1..]) == (n.cs, []);
    assert n.fields + [] == n.fields;
  }

  /** One more piece behind those already fed. */
  lemma {:induction false} FeedAppend(cs: nat, pieces: seq<seq<Octet>>, last: seq<Octet>)
    requires HeaderState(Feed(cs, pieces).0)
    ensures var f := Feed(cs, pieces);
            var n := Execute(f.0, last);
            Feed(cs, pieces + [last]) == (n.cs, f.1 + n.fields)
    decreases |pieces|
  {
    if pieces == [] {
      FeedLast(cs, last);
      assert pieces + [last] == [last];
      assert [] + Execute(cs, last).fields == Execute(cs, last).fields;
    } else {
      var n := Execute(cs, pieces[0]);
      var rest := Feed(n.cs, pieces[1..]);
      FeedAppend(n.cs, pieces[1..], last);
      assert (pieces + [last])[1..] == pieces[1..] + [last];
      hide Execute;
      Regroup(n.fields, rest.1, Execute(rest.0, last).fields);
    }
  }

  /** HttpRequestParser::execute: parse, then move what is left to the front of the buffer. */
  method ParseAndShift(parser: HttpParser, data: array<Octet>, len: nat) returns (offset: nat)
    requires HeaderState(parser.cs) && parser.bodyStart == 0 && 0 < len <= data.Length
    modifies parser, data
    ensures var n := Execute(old(parser.cs), old(data[..len]));
            && offset == n.p <= len && parser.cs == n.cs && parser.bodyStart == n.bodyStart
            && parser.fields == old(parser.fields) + n.fields
            && data[..len - offset] == old(data[..len])[offset..]
  {
    hide Execute, Finish, HeaderState;
    offset := parser.Run(data[..len]);
    forall k | 0 <= k < len - offset {
      data[k] := data[k + offset];
    }
  }

  /** Up to here the reads have brought `fed`, all of it parsed, and the header goes on. */
  ghost predicate HeaderGoesOn(all: seq<Octet>, fed: seq<seq<Octet>>, cs: nat, fields: seq<Field>) {
    && HeaderState(cs) && Feed(13, fed) == (cs, fields)
    && |Concat(fed)| <= |all| && Concat(fed) == all[..|Concat(fed)|] && ScannedTo(all, |Concat(fed)|, cs)
  }

  /** The next `len` bytes of the stream end the header, break it, or leave it going on. */
  lemma NextPiece(all: seq<Octet>, fed: seq<seq<Octet>>, cs: nat, fields: seq<Field>, len: nat)
    requires HeaderGoesOn(all, fed, cs, fields) && 0 < len && |Concat(fed)| + len <= |all|
    ensures var done := |Concat(fed)|;
            var piece := all[done..][..len];
            var n, whole, more := Execute(cs, piece), Execute(13, all), fed + [piece];
            && n.p <= len && |Concat(more)| == done + len && Concat(more) == all[..done + len]
            && Feed(13, more) == (n.cs, fields + n.fields)
            && (HeaderState(n.cs) ==> n.p == len && n.bodyStart == 0 && HeaderGoesOn(all, more, n.cs, fields + n.fields))
            && (!HeaderState(n.cs) ==> whole.cs == n.cs && whole.p == done + n.p && (n.cs == 0 || (n.cs == 348 && 0 < n.p)))
  {
    hide Finish, Feed, Table, NameFirst, NameNext;
    var done := |Concat(fed)|;
    var piece := all[done..][..len];
    ScanOn(all, done, cs, len);
    FeedAppend(13, fed, piece);
    ConcatAppend(fed, [piece]);
    assert Concat([piece]) == piece;
    assert all[..done] + piece == all[..done + len];
  }

  /** The reads have brought `fed`, which ends the header and has `left` behind it. */
  ghost predicate HeaderEnds(all: seq<Octet>, fed: seq<seq<Octet>>, fields: seq<Field>, left: seq<Octet>) {
    var head, got := Execute(13, all), |Concat(fed)|;
    && head.cs == 348 && Concat(fed) <= all && head.p <= got && left == all[head.p..got]
    && Feed(13, fed) == (348, fields)
  }

  /** One call of the parser, on the next `len` bytes of the stream. */
  method ParsePiece(parser: HttpParser, buff: array<Octet>, len: nat, ghost all: seq<Octet>, ghost fed: seq<seq<Octet>>)
    returns (nparse: nat, ghost more: seq<seq<Octet>>)
    requires HeaderGoesOn(all, fed, parser.cs, parser.fields) && parser.bodyStart == 0
    requires 0 < len <= buff.Length && |Concat(fed)| + len <= |all|
    requires buff[..len] == all[|Concat(fed)|..][..len]
    modifies parser, buff
    ensures nparse <= len && |Concat(more)| == |Concat(fed)| + len
    ensures if parser.cs == 0 then Execute(13, all).cs == 0
            else if parser.cs == 348 then 0 < nparse && HeaderEnds(all, more, parser.fields, buff[..len - nparse])
            else 13 <= parser.cs <= 18 && nparse == len && parser.bodyStart == 0
                 && HeaderGoesOn(all, more, parser.cs, parser.fields)
  {
    ghost var done := |Concat(fed)|;
    more := fed + [all[done..][..len]];
    NextPiece(all, fed, parser.cs, parser.fields, len);
    Next(all, done, len);
    hide Execute, Feed, HeaderGoesOn, Concat;
    nparse := ParseAndShift(parser, buff, len);
    assert all[done..done + len][nparse..] == all[done + nparse..done + len];
  }

  /** The read and parse loop of recvRequest: it ends with the header read and `left` bytes behind it
      in the buffer, or with a failure. */
  method ReadHeader(peer: Peer, parser: HttpParser, buff: array<Octet>)
    returns (ok: bool, left: nat, ghost fed: seq<seq<Octet>>)
    requires parser.cs == 13 && parser.bodyStart == 0 && parser.fields == []
    modifies peer`pending, parser, buff
    ensures ok <==> buff.Length > 0 && Execute(13, old(peer.pending)).cs == 348
    ensures ok ==> left < buff.Length && HeaderEnds(old(peer.pending), fed, parser.fields, buff[..left])
    ensures ok ==> |Concat(fed)| <= |old(peer.pending)| && peer.pending == old(peer.pending)[|Concat(fed)|..]
  {
    left := 0;
    fed := [];
    ghost var all := peer.pending;
    GoesOnAtEnds(all, fed, 13, []);
    while true
      invariant left == 0 && parser.bodyStart == 0 && HeaderGoesOn(all, fed, parser.cs, parser.fields)
      invariant |Concat(fed)| <= |all| && peer.pending == all[|Concat(fed)|..]
      decreases |peer.pending|
    {
      hide HeaderGoesOn, HeaderEnds, Execute, Feed, Concat, Put;
      GoesOnAtEnds(all, fed, parser.cs, parser.fields);
      ghost var done, was := |Concat(fed)|, buff[..];
      var len := peer.Read(buff, left, buff.Length - left);
      if len <= 0 {
        return false, left, fed;
      }
      Next(all, done, len);
      PutFront(was, all[done..][..len]);
      len := len + left;
      assert buff[..len] == buff[..][..len];
      var nparse;
      nparse, fed := ParsePiece(parser, buff, len, all, fed);
      if parser.cs == 0 {
        return false, left, fed;
      }
      left := len - nparse;
      if left == buff.Length {
        return false, left, fed;
      }
      if parser.cs >= 348 {
        return true, left, fed;
      }
    }
  }

  /** Before the first read the header goes on; if it still does at the end of the stream, it is not
      complete. */
  lemma GoesOnAtEnds(all: seq<Octet>, fed: seq<seq<Octet>>, cs: nat, fields: seq<Field>)
    ensures HeaderGoesOn(all, [], 13, [])
    ensures HeaderGoesOn(all, fed, cs, fields) ==> HeaderState(cs)
    ensures HeaderGoesOn(all, fed, cs, fields) && |Concat(fed)| == |all| ==> Execute(13, all).cs != 348
    ensures forall left :: HeaderEnds(all, fed, fields, left) ==> Execute(13, all).cs == 348
  {
    assert all[0..] == all && all[..0] == [];
  }

  /** The body fill of recvRequest: first from the `left` bytes in the buffer, then from the peer. */
  method ReadBody(peer: Peer, buff: array<Octet>, left: nat, length: nat) returns (r: Option<seq<Octet>>)
    requires 0 < length && left <= buff.Length
    modifies peer`pending
    ensures var rest := buff[..left] + old(peer.pending);
            && (r.Some? <==> length <= left || (length <= |rest| && AsInt32(length - left) > 0))
            && (r.Some? ==> r.value == rest[..length])
            && (r.Some? ==> peer.pending == old(peer.pending)[if length > left then length - left else 0..])
  {
    var body := new Octet[length];
    var len := if length >= left then left else length;
    forall k | 0 <= k < len {
      body[k] := buff[k];
    }
    assert body[..len] == buff[..len];
    if length - left > 0 {
      var n := ReadFixSize(peer, body, len, length - left);
      if n <= 0 {
        return None;
      }
    }
    r := Some(body[..]);
  }

  /** A cleanly cut header reports what the stream says, with nothing behind it taking part. */
  lemma CleanDelivery(all: seq<Octet>, fed: seq<seq<Octet>>)
    requires Feed(13, fed).0 == 348 && Concat(fed) <= all && CleanCuts(13, fed)
    ensures Feed(13, fed).1 == Execute(13, all).fields
  {
    var got := Concat(fed);
    CleanPiecesAreOne(13, fed);
    FinishPrefix(got, all[|got|..], Enter(13));
    assert got + all[|got|..] == all;
  }

  /** What becomes of a request whose header ends at `head` and had its last read at `got`: it is
      complete iff the body arrives and what is missing of it has a length that `int` can hold. */
  ghost predicate Completed(all: seq<Octet>, head: nat, got: nat, fields: seq<Field>, length: int,
                            req: Option<Request>, pending: seq<Octet>)
    requires head <= got <= |all|
  {
    && (req.Some? <==>
          length <= got - head || (head + length <= |all| && AsInt32(length - (got - head)) > 0))
    && (req.Some? ==>
          && req.value == Request(fields, if length > 0 then all[head..head + length] else [])
          && pending == all[if head + length > got then head + length else got..])
  }

  /** For every length but those that look negative, what is left over at the header's end is no matter. */
  lemma CompletedInt(all: seq<Octet>, head: nat, got: nat, fields: seq<Field>, length: int,
                     req: Option<Request>, pending: seq<Octet>)
    requires head <= got <= |all| && Completed(all, head, got, fields, length, req, pending)
    requires 0 < length < 0x8000_0000
    ensures if head + length <= |all| then req == Some(Request(fields, all[head..head + length])) else req == None
  {
  }

  /** The end of recvRequest: the body behind a header that announces `length` bytes of it. */
  method Complete(peer: Peer, buff: array<Octet>, left: nat, fields: seq<Field>, length: int,
                  ghost all: seq<Octet>, ghost head: nat, ghost got: nat)
    returns (req: Option<Request>)
    requires left <= buff.Length && head <= got <= |all|
    requires buff[..left] == all[head..got] && peer.pending == all[got..]
    modifies peer`pending
    ensures Completed(all, head, got, fields, length, req, peer.pending)
  {
    if length <= 0 {
      return Some(Request(fields, []));
    }
    assert buff[..left] + peer.pending == all[head..];
    hide AsInt32;
    var body := ReadBody(peer, buff, left, length);
    if body == None {
      return None;
    }
    assert all[head..][..length] == all[head..head + length];
    req := Some(Request(fields, body.value));
  }

  /** HttpSession::recvRequest with a buffer of `size` bytes, from the first header line on; `lengthOf`
      is the Content-Length that the header map shows after the fields reported. */
  method RecvRequest(peer: Peer, size: nat, lengthOf: seq<Field> -> int)
    returns (req: Option<Request>, ghost fed: seq<seq<Octet>>)
    modifies peer`pending
    ensures size == 0 || Execute(13, old(peer.pending)).cs != 348 ==> req == None
    ensures size > 0 && Execute(13, old(peer.pending)).cs == 348 ==>
              var all, head, got := old(peer.pending), Execute(13, old(peer.pending)).p, |Concat(fed)|;
              var fields := Feed(13, fed).1;
              && Concat(fed) <= all && head <= got < head + size
              && Completed(all, head, got, fields, lengthOf(fields), req, peer.pending)
    // For every length but those that look negative the body decides; a cleanly cut delivery reports the
    // fields of the stream, so that there the stream alone decides.
    ensures size > 0 && Execute(13, old(peer.pending)).cs == 348 ==>
              var all, head, fields := old(peer.pending), Execute(13, old(peer.pending)), Feed(13, fed).1;
              var length := lengthOf(fields);
              && (CleanCuts(13, fed) ==> fields == head.fields)
              && (0 < length < 0x8000_0000 ==>
                    if head.p + length <= |all| then req == Some(Request(fields, all[head.p..head.p + length]))
                    else req == None)
  {
    ghost var all := peer.pending;
    hide Execute, Feed, Concat, CleanCuts, Completed;
    var parser := new HttpParser();
    var buff := new Octet[size];
    var ok, left;
    ok, left, fed := ReadHeader(peer, parser, buff);
    if !ok {
      return None, fed;
    }
    var length := lengthOf(parser.fields);
    ghost var head, got := Execute(13, all).p, |Concat(fed)|;
    req := Complete(peer, buff, left, parser.fields, length, all, head, got);
    if CleanCuts(13, fed) {
      CleanDelivery(all, fed);
    }
    if 0 < length < 0x8000_0000 {
      CompletedInt(all, head, got, parser.fields, length, req, peer.pending);
    }
  }

  /** A header of one line in one piece. */
  lemma WholeHeader(f: Field, behind: seq<Octet>)
    requires Printable(f)
    ensures var n := Execute(13, Line(f, []) + ([CR, LF] + behind));
            n.cs == 348 && n.p == |Line(f, [])| + 2 && n.fields == [f]
  {
    var buf := Line(f, []) + ([CR, LF] + behind);
    assert Stands(buf, 0, buf) && Within(buf, Enter(13));
    hide Line, Finish, Stands, Within, Printable;
    StandsSplit(buf, 0, Line(f, []), [CR, LF] + behind);
    var n := ScanLine(buf, Enter(13), f, []);
    StandsSplit(buf, n.p, [CR, LF], behind);
    ScanBlankLine(buf, n);
  }

  lemma CutPieces(first: seq<Octet>, rest: seq<Octet>, value: seq<Octet>, behind: seq<Octet>)
    ensures Concat([first, rest + [58] + value + [CR, LF], [CR, LF] + behind]) ==
            Line(Field(first + rest, value), []) + ([CR, LF] + behind)
  {
    var more, end := rest + [58] + value + [CR, LF], [CR, LF] + behind;
    assert [first, more, end][1..] == [more, end] && [more, end][1..] == [end];
    assert Concat([end]) == end && Concat([more, end]) == more + end;
    assert first + more == Line(Field(first + rest, value), []);
    Regroup(first, more, end);
  }

  /** A header of one line, cut inside the name: both deliveries end it at the same byte, but the one in
      pieces reports the line without the first part of its name. */
  lemma CutHeaderIsLost(first: seq<Octet>, rest: seq<Octet>, value: seq<Octet>, behind: seq<Octet>)
    requires Token(first) && Token(rest) && FieldValue(value)
    ensures var pieces := [first, rest + [58] + value + [CR, LF], [CR, LF] + behind];
            var whole := Execute(13, Concat(pieces));
            && Feed(13, pieces) == (348, [Field(rest, value)])
            && whole.cs == 348 && whole.fields == [Field(first + rest, value)]
            && Concat(pieces) == Concat(pieces)[..whole.p] + behind
  {
    var more, end := rest + [58] + value + [CR, LF], [CR, LF] + behind;
    CutNameIsLost(first, rest, value);
    CutPieces(first, rest, value, behind);
    WholeHeader(Field(first + rest, value), behind);
    assert Stands(end, 0, [CR, LF]);
    ScanBlankLine(end, Enter(13));
    hide Execute, Token, FieldValue, Feed, Concat;
    FeedAppend(13, [first, more], end);
    assert [first, more] + [end] == [first, more, end] && [Field(rest, value)] + [] == [Field(rest, value)];
  }

  /** How a lookup of content-length answers: 0 without such a field, and the number it was printed from. */
  ghost predicate ReadsLength(lengthOf: seq<Field> -> int) {
    && (forall fields: seq<Field> :: (forall f <- fields :: !SameName(f.name, CONTENT_LENGTH)) ==> lengthOf(fields) == 0)
    && (forall n: nat :: lengthOf([ContentLength(n)]) == n)
  }

  lemma TokenParts(first: seq<Octet>, rest: seq<Octet>)
    requires Token(first + rest) && first != [] && rest != []
    ensures Token(first) && Token(rest)
  {
    var whole := first + rest;
    forall i | 0 <= i < |first| ensures TokenChar(first[i]) {
      assert first[i] == whole[i];
    }
    forall i | 0 <= i < |rest| ensures TokenChar(rest[i]) {
      assert rest[i] == whole[|first| + i];
    }
  }

  lemma NoLength(name: seq<Octet>, digits: seq<Octet>, lengthOf: seq<Field> -> int)
    requires ReadsLength(lengthOf) && |name| < |CONTENT_LENGTH|
    ensures lengthOf([Field(name, digits)]) == 0
  {
    var fields := [Field(name, digits)];
    assert !SameName(name, CONTENT_LENGTH);
    assert forall f <- fields :: f.name == name;
  }

  /** A content-length line cut anywhere inside its name announces no body at all. */
  lemma CutLengthIsLost(first: seq<Octet>, rest: seq<Octet>, body: seq<Octet>, lengthOf: seq<Field> -> int)
    requires first != [] && rest != [] && first + rest == CONTENT_LENGTH && ReadsLength(lengthOf)
    ensures var pieces := [first, rest + [58] + Decimal(|body|) + [CR, LF], [CR, LF] + body];
            var whole := Execute(13, Concat(pieces));
            && whole.cs == 348 && Concat(pieces) == Concat(pieces)[..whole.p] + body
            && lengthOf(whole.fields) == |body|
            && Feed(13, pieces).0 == 348 && lengthOf(Feed(13, pieces).1) == 0
  {
    var digits := Decimal(|body|);
    ContentLengthPrintable(|body|);
    TokenParts(first, rest);
    NoLength(rest, digits, lengthOf);
    hide *;
    CutHeaderIsLost(first, rest, digits, body);
  }

  /** A body of 2^31 bytes that arrives in full behind an empty header is refused. */
  method LongBodyIsRefused() returns (req: Option<Request>)
    ensures req == None
  {
    var length := 0x8000_0000;
    var all: seq<Octet> := [CR, LF] + seq(length, _ => 0);
    assert Stands(all, 0, [CR, LF]);
    ScanBlankLine(all, Enter(13));
    assert Execute(13, all).cs == 348 && Execute(13, all).p == 2 && 2 + length <= |all|;
    hide Execute;
    var peer := new Peer(all);
    ghost var fed;
    req, fed := RecvRequest(peer, 1, _ => length);
    assert |Concat(fed)| == 2;
    assert AsInt32(length) < 0;
  }
}
