/**
 * The form of the text that IPv6Address::insert in src/address.cpp writes: its letters, and where `::`
 * stands.
 */
module AddressForms {
  import opened Prelude
  import opened AddressTexts

  /** A digit as `std::hex` writes it: lower case. */
  predicate LowerHex(c: char) { '0' <= c <= '9' || 'a' <= c <= 'f' }

  lemma DigitIsLower(d: nat)
    requires d < 16
    ensures LowerHex(Digit(d)) && (Digit(d) == '0' <==> d == 0)
  {
  }

  /** A group is written in lower-case digits, without a zero in front, and in at most four of them. */
  lemma {:induction false} HexIsLower(n: nat)
    ensures forall c <- Hex(n) :: LowerHex(c)
    ensures Hex(n)[0] == '0' <==> n == 0
    ensures n < 0x10 ==> |Hex(n)| == 1
    ensures n < 0x100 ==> |Hex(n)| <= 2
    ensures n < 0x1000 ==> |Hex(n)| <= 3
    ensures n < 0x1_0000 ==> |Hex(n)| <= 4
  {
    DigitIsLower(n % 16);
    if n >= 16 {
      HexIsLower(n / 16);
      hide Digit;
      assert Hex(n) == Hex(n / 16) + [Digit(n % 16)];
    }
  }

  /** Behind groups that are not zero, the first run of zero groups is what `::` stands for, as long as it
      is; without a zero group all are written, with a colon between. */
  lemma ElidesFirstRun(a: seq<Group>, zeros: seq<Group>, b: seq<Group>)
    requires 0 !in a && (forall z <- zeros :: z == 0) && (b != [] ==> b[0] != 0 && zeros != [])
    ensures Text(a + zeros + b) == if zeros == [] then Join(a) else Join(a) + "::" + Join(b)
  {
    var gs := a + zeros + b;
    var l := FirstZero(gs);
    forall k | 0 <= k < |a| ensures gs[k] != 0 {
      assert gs[k] == a[k] && a[k] in a;
    }
    forall k | |a| <= k < |a| + |zeros| ensures gs[k] == 0 {
      assert gs[k] == zeros[k - |a|] && zeros[k - |a|] in zeros;
    }
    assert zeros != [] ==> gs[|a|] == 0;
    assert l == |a|;
    if zeros == [] {
      assert gs == a;
    } else {
      assert b != [] ==> gs[|a| + |zeros|] == b[0];
      assert RunEnd(gs, l) == |a| + |zeros|;
      assert gs[..l] == a && gs[RunEnd(gs, l)..] == b;
    }
  }

  /** Groups side by side have one colon between them. */
  lemma JoinTwo(a: seq<Group>, b: seq<Group>)
    requires a != [] && b != []
    ensures Join(a + b) == Join(a) + ":" + Join(b)
    decreases |b|
  {
    var c, x := b[..|b| - 1], b[|b| - 1];
    assert b == c + [x] && a + b == a + c + [x];
    JoinAppend(a + c, x);
    JoinAppend(c, x);
    if c == [] {
      assert a + c == a && b == [x] && c + [x] == [x];
    } else {
      JoinTwo(a, c);
      Regroup(Join(a) + ":", Join(c), ":" + Hex(x));
      Regroup(Join(c), ":", Hex(x));
      Regroup(Join(a) + ":" + Join(c), ":", Hex(x));
    }
  }

  lemma JoinOneByOne(x: Group, rest: seq<Group>)
    ensures Join([]) == "" && Join([x]) == Hex(x)
    ensures rest != [] ==> Join([x] + rest) == Hex(x) + (":" + Join(rest))
  {
    assert [x][1..] == [];
    if rest != [] {
      assert ([x] + rest)[1..] == rest;
      Regroup(Hex(x), ":", Join(rest));
    }
  }

  /** The unspecified address and the loopback address. */
  lemma ShortTexts()
    ensures Text([0, 0, 0, 0, 0, 0, 0, 0]) == "::"
    ensures Text([0, 0, 0, 0, 0, 0, 0, 1]) == "::1"
  {
    JoinOneByOne(1, []);
    hide Text, Join;
    ElidesFirstRun([], [0, 0, 0, 0, 0, 0, 0, 0], []);
    assert [] + [0, 0, 0, 0, 0, 0, 0, 0] + [] == [0, 0, 0, 0, 0, 0, 0, 0];
    ElidesFirstRun([], [0, 0, 0, 0, 0, 0, 0], [1]);
    assert [] + [0, 0, 0, 0, 0, 0, 0] + [1] == [0, 0, 0, 0, 0, 0, 0, 1];
  }

  /** Of two runs of zeros the first is left out, even where the second is longer. */
  lemma TwoRuns()
    ensures Text([10, 0, 0, 11, 0, 0, 0, 12]) == "a" + "::" + ("b" + (":" + ("0" + (":" + ("0" + (":" + ("0" + (":" + "c"))))))))
  {
    hide Text, Join;
    ElidesFirstRun([10], [0, 0], [11, 0, 0, 0, 12]);
    assert [10] + [0, 0] + [11, 0, 0, 0, 12] == [10, 0, 0, 11, 0, 0, 0, 12];
    JoinOneByOne(10, []);
    JoinOneByOne(12, []);
    JoinOneByOne(0, [12]);
    assert [0] + [12] == [0, 12];
    JoinOneByOne(0, [0, 12]);
    assert [0] + [0, 12] == [0, 0, 12];
    JoinOneByOne(0, [0, 0, 12]);
    assert [0] + [0, 0, 12] == [0, 0, 0, 12];
    JoinOneByOne(11, [0, 0, 0, 12]);
    assert [11] + [0, 0, 0, 12] == [11, 0, 0, 0, 12];
  }
}
