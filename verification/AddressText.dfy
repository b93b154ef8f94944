/**
 * The text of an IPv6 address: IPv6Address::insert in src/address.cpp, against the text form of
 * section 2.2 (form 2) of RFC 4291, in which one `::` stands for a run of zero groups.
 */
module AddressTexts {
  import opened Prelude
  import opened Codecs

  type Group = n: nat | n < 0x1_0000

  // ----- Hexadecimal -----------------------------------------------------------

  function Digit(d: nat): char
    requires d < 16
  {
    "0123456789abcdef"[d]
  }

  predicate IsHex(c: char) { '0' <= c <= '9' || 'a' <= c <= 'f' || 'A' <= c <= 'F' }

  function DigitValue(c: char): nat
    requires IsHex(c)
  {
    if c <= '9' then c as nat - '0' as nat
    else if c <= 'F' then c as nat - 'A' as nat + 10 else c as nat - 'a' as nat + 10
  }

  /** What `<< std::hex` prints. */
  function Hex(n: nat): (s: string)
    ensures s != []
  {
    if n < 16 then [Digit(n)] else Hex(n / 16) + [Digit(n % 16)]
  }

  function HexValue(s: string): nat
    requires forall c <- s :: IsHex(c)
  {
    if s == [] then 0 else HexValue(s[..|s| - 1]) * 16 + DigitValue(s[|s| - 1])
  }

  lemma DigitBack(d: nat)
    requires d < 16
    ensures IsHex(Digit(d)) && DigitValue(Digit(d)) == d
  {
  }

  lemma {:induction false} HexBack(n: nat)
    ensures (forall c <- Hex(n) :: IsHex(c)) && HexValue(Hex(n)) == n
  {
    DigitBack(n % 16);
    if n < 16 {
      assert Hex(n)[..0] == [] && HexValue([]) == 0;
    } else {
      HexBack(n / 16);
      assert Hex(n)[..|Hex(n)| - 1] == Hex(n / 16);
    }
  }

  lemma HexLength(n: Group)
    ensures |Hex(n)| <= 4
  {
    var a := n / 16;
    var b := a / 16;
    var c := b / 16;
    assert c < 16 && |Hex(c)| == 1;
    assert b >= 16 ==> |Hex(b)| == |Hex(c)| + 1;
    assert b < 16 ==> |Hex(b)| == 1;
    assert a >= 16 ==> |Hex(a)| == |Hex(b)| + 1;
    assert a < 16 ==> |Hex(a)| == 1;
    assert n >= 16 ==> |Hex(n)| == |Hex(a)| + 1;
    assert n < 16 ==> |Hex(n)| == 1;
  }

  // ----- Reading the text ------------------------------------------------------

  /** One group: one to four digits. */
  function Field(s: string): Option<nat> {
    if 1 <= |s| <= 4 && forall c <- s :: IsHex(c) then Some(HexValue(s)) else None
  }

  /** Where the first colon stands. */
  function Colon(s: string): (k: nat)
    ensures k <= |s| && (k < |s| ==> s[k] == ':')
  {
    if s == [] || s[0] == ':' then 0 else 1 + Colon(s[1..])
  }

  /** Groups between single colons. */
  function Fields(s: string): Option<seq<nat>>
    decreases |s|
  {
    var k := Colon(s);
    var first := Field(s[..k]);
    if first == None then None
    else if k == |s| then Some([first.value])
    else
      var rest := Fields(s[k + 1..]);
      if rest == None then None else Some([first.value] + rest.value)
  }

  function Side(s: string): Option<seq<nat>> { if s == [] then Some([]) else Fields(s) }

  predicate NoColon(s: string) { forall k | 0 <= k < |s| :: s[k] != ':' }

  predicate DoubleAt(s: string, k: nat) { k + 1 < |s| && s[k] == ':' && s[k + 1] == ':' }

  /** Where the first `::` stands. */
  function Double(s: string): (k: nat)
    ensures k <= |s|
  {
    if s == [] || DoubleAt(s, 0) then 0 else 1 + Double(s[1..])
  }

  function Zeros(n: nat): (z: seq<nat>)
    ensures |z| == n && forall k | 0 <= k < n :: z[k] == 0
  {
    seq(n, _ => 0)
  }

  /** The eight groups a text stands for, a `::` filling up with at least one zero group. */
  function Expand(s: string): Option<seq<nat>> {
    var k := Double(s);
    if k == |s| then
      var all := Fields(s);
      if all.Some? && |all.value| == 8 then all else None
    else
      var left, right := Side(s[..k]), if k + 2 <= |s| then Side(s[k + 2..]) else None;
      if left.Some? && right.Some? && |left.value| + |right.value| < 8 then
        Some(left.value + Zeros(8 - |left.value| - |right.value|) + right.value)
      else None
  }

  // ----- Writing the text ------------------------------------------------------

  function Join(gs: seq<Group>): string {
    if gs == [] then [] else if |gs| == 1 then Hex(gs[0]) else Hex(gs[0]) + ":" + Join(gs[1..])
  }

  function FirstZero(gs: seq<Group>): (k: nat)
    ensures k <= |gs| && (k < |gs| ==> gs[k] == 0) && forall j | 0 <= j < k :: gs[j] != 0
  {
    if gs == [] || gs[0] == 0 then 0 else 1 + FirstZero(gs[1..])
  }

  /** The end of the run of zeros that begins at k. */
  function RunEnd(gs: seq<Group>, k: nat): (e: nat)
    requires k <= |gs|
    ensures k <= e <= |gs| && (e < |gs| ==> gs[e] != 0) && forall j | k <= j < e :: gs[j] == 0
    decreases |gs| - k
  {
    if k == |gs| || gs[k] != 0 then k else RunEnd(gs, k + 1)
  }

  /** The first maximal run of zero groups is left out. */
  function Text(gs: seq<Group>): string {
    var l := FirstZero(gs);
    if l == |gs| then Join(gs) else Join(gs[..l]) + "::" + Join(gs[RunEnd(gs, l)..])
  }

  /** What has been written before the next group: a run that may go on is not written yet. */
  function Written(gs: seq<Group>): string {
    var l := FirstZero(gs);
    WrittenAt(gs, l, RunEnd(gs, l))
  }

  function WrittenAt(gs: seq<Group>, l: nat, r: nat): string
    requires l <= r <= |gs|
  {
    if r == |gs| then Join(gs[..l]) else Join(gs[..l]) + "::" + Join(gs[r..])
  }

  /** A run of zeros has been written as `::`. */
  predicate UseZero(gs: seq<Group>) {
    var l := FirstZero(gs);
    l < RunEnd(gs, l) < |gs|
  }

  lemma {:induction false} JoinAppend(gs: seq<Group>, x: Group)
    ensures Join(gs + [x]) == Join(gs) + (if gs == [] then "" else ":") + Hex(x)
  {
    if |gs| <= 1 {
      assert (gs + [x])[1..] == if gs == [] then [] else [x];
    } else {
      assert (gs + [x])[1..] == gs[1..] + [x];
      JoinAppend(gs[1..], x);
    }
  }

  lemma {:induction false} FirstZeroAppend(gs: seq<Group>, x: Group)
    ensures FirstZero(gs + [x]) == (if FirstZero(gs) == |gs| && x != 0 then |gs| + 1 else FirstZero(gs))
  {
    if gs != [] {
      assert (gs + [x])[1..] == gs[1..] + [x];
      FirstZeroAppend(gs[1..], x);
    } else {
      assert (gs + [x])[1..] == [];
    }
  }

  lemma {:induction false} RunEndAppend(gs: seq<Group>, x: Group, k: nat)
    requires k <= |gs|
    ensures RunEnd(gs + [x], k) == (if RunEnd(gs, k) == |gs| && x == 0 then |gs| + 1 else RunEnd(gs, k))
    decreases |gs| - k
  {
    if k < |gs| && gs[k] == 0 {
      RunEndAppend(gs, x, k + 1);
    }
  }

  /** One round of the loop in insert. */
  lemma WrittenAppend(gs: seq<Group>, x: Group)
    ensures var open := gs != [] && gs[|gs| - 1] == 0 && !UseZero(gs);
            && UseZero(gs + [x]) == (UseZero(gs) || (open && x != 0))
            && Written(gs + [x]) == (if x == 0 && !UseZero(gs) then Written(gs)
               else Written(gs) + (if open then ":" else "") + (if gs == [] then "" else ":") + Hex(x))
  {
    var l := FirstZero(gs);
    var all := gs + [x];
    FirstZeroAppend(gs, x);
    RunEndAppend(gs, x, l);
    if l == |gs| {
      JoinAppend(gs, x);
      assert all[..l] == gs == gs[..l] && all[..|all|] == all;
      if x != 0 {
        assert RunEnd(all, |all|) == |all|;
      }
    } else {
      hide Join, Hex, WrittenAt;
      WrittenBehindZero(gs, x, l, RunEnd(gs, l));
    }
  }

  lemma WrittenBehindZero(gs: seq<Group>, x: Group, l: nat, r: nat)
    requires l <= r <= |gs|
    ensures if x == 0 && r == |gs| then WrittenAt(gs + [x], l, r + 1) == WrittenAt(gs, l, r)
            else WrittenAt(gs + [x], l, r) == WrittenAt(gs, l, r) + (if r == |gs| then ":" else "") + ":" + Hex(x)
  {
    var all := gs + [x];
    assert all[..l] == gs[..l];
    if r < |gs| {
      JoinAppend(gs[r..], x);
      assert all[r..] == gs[r..] + [x];
    } else if x != 0 {
      assert all[r..] == [x] && Join([x]) == Hex(x);
      hide Hex, Join;
      assert Join(gs[..l]) + "::" + Hex(x) == Join(gs[..l]) + ":" + ":" + Hex(x);
    }
  }

  /** Behind the loop a run that has not been written is written. */
  lemma TextIsWritten(gs: seq<Group>)
    requires gs != []
    ensures Text(gs) == Written(gs) + (if !UseZero(gs) && gs[|gs| - 1] == 0 then "::" else "")
  {
    var l := FirstZero(gs);
    var r := RunEnd(gs, l);
    if r == |gs| {
      assert Join(gs[r..]) == [];
      assert gs[..|gs|] == gs;
    }
  }

  /** The groups of sixteen bytes in network order. */
  function Groups(bytes: seq<Byte>): seq<Group>
    requires |bytes| == 16
  {
    seq(8, i requires 0 <= i < 8 => GroupOf(bytes[2 * i], bytes[2 * i + 1]))
  }

  function GroupOf(hi: Byte, lo: Byte): Group { Nat8(hi) * 256 + Nat8(lo) }

  /** The two bytes as a word of the machine, and byteswapOnLittleEndian of it. */
  function Word(host: Order, hi: Byte, lo: Byte): bv16 { Value16(host, [hi, lo]) }
  function Swapped(host: Order, w: bv16): bv16 { if host == Little then Swap16(w) else w }

  lemma WordIsGroup(host: Order, hi: Byte, lo: Byte)
    ensures Nat16(Swapped(host, Word(host, hi, lo))) == GroupOf(hi, lo)
    ensures Word(host, hi, lo) == 0 <==> GroupOf(hi, lo) == 0
  {
    Split8(hi, lo);
    Split8(lo, hi);
    SwapHalves16(Join8(lo, hi));
    ZeroWord(hi, lo);
    ZeroWord(lo, hi);
    ZeroByte(hi);
    ZeroByte(lo);
    hide Join8, Hi8, Lo8, Swap16, Nat8;
  }

  /** addr[i] as the machine reads it. */
  function WordAt(host: Order, bytes: seq<Byte>, i: nat): bv16
    requires |bytes| == 16 && i < 8
  {
    Word(host, bytes[2 * i], bytes[2 * i + 1])
  }

  lemma WordAtIsGroup(host: Order, bytes: seq<Byte>, i: nat)
    requires |bytes| == 16 && i < 8
    ensures Nat16(Swapped(host, WordAt(host, bytes, i))) == Groups(bytes)[i]
    ensures WordAt(host, bytes, i) == 0 <==> Groups(bytes)[i] == 0
  {
    WordIsGroup(host, bytes[2 * i], bytes[2 * i + 1]);
  }

  lemma ZeroWord(hi: Byte, lo: Byte) ensures Join8(hi, lo) == 0 <==> hi == 0 && lo == 0 {}
  lemma ZeroByte(b: Byte) ensures Nat8(b) == 0 <==> b == 0 {}

  /** IPv6Address::insert between the brackets. */
  method Insert(host: Order, bytes: seq<Byte>) returns (os: string)
    requires |bytes| == 16
    ensures os == Text(Groups(bytes))
  {
    ghost var gs := Groups(bytes);
    EmptyWritten();
    hide Join, Hex, Text, Written, UseZero, WordAt, Swapped, Groups, Nat16;
    os := "";
    var useZero := false;
    assert gs[..0] == [];
    for i := 0 to 8
      invariant os == Written(gs[..i]) && useZero == UseZero(gs[..i])
    {
      var word, last := WordAt(host, bytes, i), if i > 0 then WordAt(host, bytes, i - 1) else 0;
      WordAtIsGroup(host, bytes, i);
      if i > 0 {
        WordAtIsGroup(host, bytes, i - 1);
      }
      Round(gs, i);
      if word == 0 && !useZero {
        continue;
      }
      if i > 0 {
        if last == 0 && !useZero {
          os := os + ":";
          useZero := true;
        }
        os := os + ":";
      }
      os := os + Hex(Nat16(Swapped(host, word)));
    }
    assert gs[..8] == gs;
    TextIsWritten(gs);
    WordAtIsGroup(host, bytes, 7);
    if !useZero && WordAt(host, bytes, 7) == 0 {
      os := os + "::";
    }
  }

  /** A round of the loop, in its own terms. */
  lemma Round(gs: seq<Group>, i: nat)
    requires i < |gs|
    ensures var done, use, written, next := gs[..i], UseZero(gs[..i]), Written(gs[..i]), gs[..i + 1];
            if gs[i] == 0 && !use then Written(next) == written && !UseZero(next)
            else if i == 0 then Written(next) == written + Hex(gs[i]) && !UseZero(next)
            else if gs[i - 1] == 0 && !use then Written(next) == written + ":" + ":" + Hex(gs[i]) && UseZero(next)
            else Written(next) == written + ":" + Hex(gs[i]) && UseZero(next) == use
  {
    WrittenAppend(gs[..i], gs[i]);
    hide Written, Hex;
    assert gs[..i + 1] == gs[..i] + [gs[i]];
    assert Written(gs[..i]) + "" == Written(gs[..i]) && [] + Hex(gs[i]) == Hex(gs[i]);
  }

  lemma EmptyWritten()
    ensures Written([]) == "" && !UseZero([])
  {
  }

  // ----- Back again ------------------------------------------------------------

  /** No two colons in a row, and none at either end. */
  predicate Tight(s: string) {
    && (s != [] ==> s[0] != ':' && s[|s| - 1] != ':')
    && forall k | 0 <= k < |s| :: !DoubleAt(s, k)
  }

  lemma HexField(n: Group)
    ensures Field(Hex(n)) == Some(n) && NoColon(Hex(n))
  {
    HexBack(n);
    HexLength(n);
    forall k | 0 <= k < |Hex(n)| ensures Hex(n)[k] != ':' {
      assert IsHex(Hex(n)[k]);
    }
  }

  lemma {:induction false} ColonAfter(a: string, b: string)
    requires NoColon(a)
    ensures Colon(a) == |a| && Colon(a + ":" + b) == |a|
  {
    if a != [] {
      assert (a + ":" + b)[1..] == a[1..] + ":" + b;
      ColonAfter(a[1..], b);
    }
  }

  /** Groups joined by colons are read back, and no `::` is among them. */
  lemma {:induction false} JoinBack(gs: seq<Group>)
    ensures Side(Join(gs)) == Some(gs) && Tight(Join(gs)) && (Join(gs) == [] <==> gs == [])
  {
    if |gs| == 1 {
      JoinOne(gs[0]);
      assert gs == [gs[0]];
    } else if |gs| > 1 {
      JoinBack(gs[1..]);
      hide Side, Tight, Hex;
      JoinMore(gs[0], gs[1..]);
      assert gs == [gs[0]] + gs[1..];
    }
  }

  lemma JoinOne(g: Group)
    ensures Side(Join([g])) == Some([g]) && Tight(Join([g])) && Join([g]) != []
  {
    HexField(g);
    var h := Hex(g);
    ColonAfter(h, []);
    assert h[..|h|] == h;
  }

  lemma JoinMore(g: Group, others: seq<Group>)
    requires others != [] && Join(others) != [] && Side(Join(others)) == Some(others) && Tight(Join(others))
    ensures var all := Hex(g) + ":" + Join(others);
            Side(all) == Some([g] + others) && Tight(all) && all != []
  {
    var h, rest := Hex(g), Join(others);
    HexField(g);
    ColonAfter(h, rest);
    hide Field, Tight, Join, Hex;
    FieldsMore(h, rest);
    TightJoin(h, rest);
  }

  /** A text without colons and a colon in front of others. */
  lemma FieldsMore(h: string, rest: string)
    requires rest != [] && Colon(h + ":" + rest) == |h|
    ensures Fields(h + ":" + rest) ==
            if Field(h) == None || Fields(rest) == None then None else Some([Field(h).value] + Fields(rest).value)
  {
    var all := h + ":" + rest;
    assert all[..|h|] == h && all[|h| + 1..] == rest;
  }

  lemma TightJoin(h: string, rest: string)
    requires h != [] && rest != [] && Tight(rest) && NoColon(h)
    ensures Tight(h + ":" + rest)
  {
    var all := h + ":" + rest;
    forall k | 0 <= k < |all| ensures !DoubleAt(all, k) {
      if k < |h| {
        assert all[k] == h[k];
      } else if k > |h| && k + 1 < |all| {
        assert all[k] == rest[k - |h| - 1] && all[k + 1] == rest[k - |h|];
        assert !DoubleAt(rest, k - |h| - 1);
      }
    }
  }

  lemma {:induction false} DoubleAbsent(s: string)
    requires forall k | 0 <= k < |s| :: !DoubleAt(s, k)
    ensures Double(s) == |s|
  {
    if s != [] {
      assert !DoubleAt(s, 0);
      forall k | 0 <= k < |s[1..]| ensures !DoubleAt(s[1..], k) {
        assert !DoubleAt(s, k + 1);
      }
      DoubleAbsent(s[1..]);
    }
  }

  lemma {:induction false} DoubleFirst(s: string, k: nat)
    requires DoubleAt(s, k) && forall j | 0 <= j < k :: !DoubleAt(s, j)
    ensures Double(s) == k
  {
    if k > 0 {
      assert !DoubleAt(s, 0);
      forall j | 0 <= j < k - 1 ensures !DoubleAt(s[1..], j) {
        assert !DoubleAt(s, j + 1);
      }
      DoubleFirst(s[1..], k - 1);
    }
  }

  /** Between two such texts a `::` is the only one. */
  lemma OnlyDouble(a: string, b: string)
    requires Tight(a) && Tight(b)
    ensures forall k | 0 <= k < |a + "::" + b| :: DoubleAt(a + "::" + b, k) <==> k == |a|
    ensures Double(a + "::" + b) == |a|
  {
    var s := a + "::" + b;
    forall k | 0 <= k < |s| ensures DoubleAt(s, k) <==> k == |a| {
      if k < |a| {
        assert s[k] == a[k] && (k + 1 < |a| ==> s[k + 1] == a[k + 1]);
        assert !DoubleAt(a, k);
      } else if k >= |a| + 2 && k + 1 < |s| {
        assert s[k] == b[k - |a| - 2] && s[k + 1] == b[k - |a| - 1];
        assert !DoubleAt(b, k - |a| - 2);
      }
    }
    DoubleFirst(s, |a|);
  }

  /** How often and where `::` occurs. */
  ghost predicate DoublesAre(s: string, k: nat) {
    forall j | 0 <= j < |s| :: DoubleAt(s, j) <==> j == k
  }

  /** The text has a `::` iff a group is zero, and then just one, and stands for the eight groups of
      the address. */
  lemma TextExpands(gs: seq<Group>)
    requires |gs| == 8
    ensures Expand(Text(gs)) == Some(gs)
    ensures 0 in gs ==> exists k: nat :: k < |Text(gs)| && DoublesAre(Text(gs), k)
    ensures 0 !in gs ==> DoublesAre(Text(gs), |Text(gs)|)
  {
    if 0 in gs {
      hide Expand, DoublesAre;
      TextWithRun(gs, FirstZero(gs), RunEnd(gs, FirstZero(gs)));
    } else {
      TextWithoutRun(gs);
    }
  }

  lemma TextWithoutRun(gs: seq<Group>)
    requires |gs| == 8 && 0 !in gs
    ensures Expand(Text(gs)) == Some(gs) && DoublesAre(Text(gs), |Text(gs)|)
  {
    assert FirstZero(gs) == |gs|;
    JoinBack(gs);
    hide Fields, Join;
    DoubleAbsent(Join(gs));
  }

  lemma TextWithRun(gs: seq<Group>, l: nat, r: nat)
    requires |gs| == 8 && l == FirstZero(gs) && l < 8 && r == RunEnd(gs, l)
    ensures Expand(Text(gs)) == Some(gs) && |Join(gs[..l])| < |Text(gs)| && DoublesAre(Text(gs), |Join(gs[..l])|)
  {
    hide Join, Side, Expand, DoublesAre, Tight;
    var a, b := Join(gs[..l]), Join(gs[r..]);
    assert Text(gs) == a + "::" + b;
    JoinBack(gs[..l]);
    JoinBack(gs[r..]);
    ExpandDouble(a, gs[..l], b, gs[r..]);
    assert gs == gs[..l] + Zeros(r - l) + gs[r..];
  }

  lemma ExpandDouble(a: string, left: seq<Group>, b: string, right: seq<Group>)
    requires Tight(a) && Side(a) == Some(left) && Tight(b) && Side(b) == Some(right) && |left| + |right| < 8
    ensures var s := a + "::" + b;
            Expand(s) == Some(left + Zeros(8 - |left| - |right|) + right) && DoublesAre(s, |a|) && |a| < |s|
  {
    hide Side, Tight;
    OnlyDouble(a, b);
    var s := a + "::" + b;
    assert s[..|a|] == a && s[|a| + 2..] == b;
  }

  /** Different addresses have different texts. */
  lemma TextInjective(a: seq<Byte>, b: seq<Byte>)
    requires |a| == 16 && |b| == 16 && Text(Groups(a)) == Text(Groups(b))
    ensures a == b
  {
    TextExpands(Groups(a));
    TextExpands(Groups(b));
    assert Groups(a) == Groups(b);
    forall i | 0 <= i < 8 ensures a[2 * i] == b[2 * i] && a[2 * i + 1] == b[2 * i + 1] {
      assert Groups(a)[i] == Groups(b)[i];
      SameGroup(a[2 * i], a[2 * i + 1], b[2 * i], b[2 * i + 1]);
    }
    forall j | 0 <= j < 16 ensures a[j] == b[j] {
      assert j == 2 * (j / 2) || j == 2 * (j / 2) + 1;
    }
  }

  lemma SameGroup(hi: Byte, lo: Byte, hi': Byte, lo': Byte)
    requires GroupOf(hi, lo) == GroupOf(hi', lo')
    ensures hi == hi' && lo == lo'
  {
    assert Nat8(hi) == Nat8(hi') && Nat8(lo) == Nat8(lo');
  }
}
