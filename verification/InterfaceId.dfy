/** ERC-165 interface ids: the XOR of function selectors, folded over their hex texts. */
module InterfaceId {
  import opened Sequences
  import opened Hex

  // ---------------------------------------------------------------------------
  // Four bytes and their text
  // ---------------------------------------------------------------------------

  /** Four bytes, as eight hex digits, the most significant first. */
  type Bytes4 = s: seq<bv4> | |s| == 8 witness [0, 0, 0, 0, 0, 0, 0, 0]

  const ZERO: Bytes4 := [0, 0, 0, 0, 0, 0, 0, 0]

  function DigitOf(n: bv4): char {
    HexDigit(n as nat)
  }

  function ValueOf(c: char): bv4 {
    if HexValue(c) < 0 then 0 else HexValue(c) as bv4
  }

  /** `BigInt(text)`, for texts of eight digits after `0x`. */
  function Read(text: string): Bytes4
    requires |text| == 10
  {
    seq(8, i requires 0 <= i < 8 => ValueOf(text[i + 2]))
  }

  function Digits(v: seq<bv4>): (r: string)
    ensures |r| == |v|
    ensures forall i | 0 <= i < |v| :: r[i] == DigitOf(v[i])
  {
    if v == [] then "" else [DigitOf(v[0])] + Digits(v[1..])
  }

  /** `toString(16)`: without leading zeros, but never empty. */
  function Shortest(digits: string): string {
    if |digits| > 1 && digits[0] == '0' then Shortest(digits[1..]) else digits
  }

  function PadStart(s: string, n: nat): string
    decreases n - |s|
  {
    if |s| >= n then s else PadStart("0" + s, n)
  }

  function Write(v: Bytes4): string {
    "0x" + PadStart(Shortest(Digits(v)), 8)
  }

  lemma {:induction false} PaddingUndoesShortening(digits: string)
    ensures PadStart(Shortest(digits), |digits|) == digits
  {
    if |digits| > 1 && digits[0] == '0' {
      var rest := digits[1..];
      PaddingUndoesShortening(rest);
      assert |Shortest(rest)| <= |rest| by {
        ShortestIsShorter(rest);
      }
      PadOneMore(Shortest(rest), |rest|);
      assert digits == "0" + rest;
    }
  }

  lemma {:induction false} ShortestIsShorter(digits: string)
    ensures |Shortest(digits)| <= |digits|
  {
    if |digits| > 1 && digits[0] == '0' {
      ShortestIsShorter(digits[1..]);
    }
  }

  lemma {:induction false} PadOneMore(s: string, n: nat)
    requires |s| <= n
    ensures PadStart(s, n + 1) == "0" + PadStart(s, n)
    decreases n - |s|
  {
    if |s| < n {
      PadOneMore("0" + s, n);
    }
  }

  /** The text keeps eight digits, whatever leading zeros the value has, and reads back. */
  lemma WrittenReadsBack(v: Bytes4)
    ensures |Write(v)| == 10 && Write(v) == "0x" + Digits(v) && Read(Write(v)) == v
  {
    PaddingUndoesShortening(Digits(v));
    forall i | 0 <= i < 8 ensures Read(Write(v))[i] == v[i] {
      DigitReadsBack(v[i]);
      assert Write(v)[i + 2] == Digits(v)[i];
    }
  }

  lemma DigitReadsBack(n: bv4)
    ensures ValueOf(DigitOf(n)) == n
  {
    var k := n as nat;
    assert k < 16 && k as bv4 == n;
    HexReadsBack(k);
  }

  // ---------------------------------------------------------------------------
  // The fold
  // ---------------------------------------------------------------------------

  function Xor(a: Bytes4, b: Bytes4): Bytes4 {
    seq(8, i requires 0 <= i < 8 => a[i] ^ b[i])
  }

  function XorTexts(left: string, right: string): string
    requires |left| == 10 && |right| == 10
  {
    Write(Xor(Read(left), Read(right)))
  }

  /** The selector texts of an interface's functions, folded from zero, first to last. */
  function Fold(acc: string, selectors: seq<string>): (r: string)
    requires |acc| == 10 && forall i | 0 <= i < |selectors| :: |selectors[i]| == 10
    ensures |r| == 10
    decreases |selectors|
  {
    if selectors == [] then acc
    else
      WrittenReadsBack(Xor(Read(acc), Read(selectors[0])));
      Fold(XorTexts(acc, selectors[0]), selectors[1..])
  }

  function ComputeInterfaceId(selectors: seq<string>): (r: string)
    requires forall i | 0 <= i < |selectors| :: |selectors[i]| == 10
    ensures |r| == 10
  {
    Fold("0x00000000", selectors)
  }

  function XorAll(values: seq<Bytes4>): Bytes4 {
    if values == [] then ZERO else Xor(values[0], XorAll(values[1..]))
  }

  lemma XorLaws(a: Bytes4, b: Bytes4, c: Bytes4)
    ensures Xor(a, b) == Xor(b, a) && Xor(a, Xor(b, c)) == Xor(Xor(a, b), c)
    ensures Xor(a, ZERO) == a && Xor(a, a) == ZERO
  {
    assert forall i | 0 <= i < 8 :: a[i] ^ (b[i] ^ c[i]) == (a[i] ^ b[i]) ^ c[i];
  }

  function Values(selectors: seq<string>): seq<Bytes4>
    requires forall i | 0 <= i < |selectors| :: |selectors[i]| == 10
  {
    seq(|selectors|, i requires 0 <= i < |selectors| => Read(selectors[i]))
  }

  lemma {:induction false} FoldIsXor(acc: string, selectors: seq<string>)
    requires |acc| == 10 && forall i | 0 <= i < |selectors| :: |selectors[i]| == 10
    requires Write(Read(acc)) == acc
    ensures Fold(acc, selectors) == Write(Xor(Read(acc), XorAll(Values(selectors))))
    decreases |selectors|
  {
    XorLaws(Read(acc), ZERO, ZERO);
    if selectors != [] {
      var first := Read(selectors[0]);
      WrittenReadsBack(Xor(Read(acc), first));
      FoldIsXor(XorTexts(acc, selectors[0]), selectors[1..]);
      assert Values(selectors)[1..] == Values(selectors[1..]);
      XorLaws(Read(acc), first, XorAll(Values(selectors[1..])));
    }
  }

  lemma ZeroDigit()
    ensures DigitOf(0) == '0' && ValueOf('0') == 0
  {
  }

  lemma ZeroDigits(zeros: seq<bv4>, text: string)
    requires |zeros| == |text|
    requires (forall i | 0 <= i < |zeros| :: zeros[i] == 0) && forall i | 0 <= i < |text| :: text[i] == '0'
    ensures Digits(zeros) == text
  {
    ZeroDigit();
  }

  lemma ZeroText()
    ensures Read("0x00000000") == ZERO && Write(ZERO) == "0x00000000"
  {
    ZeroDigits(ZERO, "00000000");
    PaddingUndoesShortening("00000000");
    assert "0x" + "00000000" == "0x00000000";
    WrittenReadsBack(ZERO);
  }

  /** The printed id is the XOR of the selectors. */
  lemma IdIsXor(selectors: seq<string>)
    requires forall i | 0 <= i < |selectors| :: |selectors[i]| == 10
    ensures ComputeInterfaceId(selectors) == Write(XorAll(Values(selectors)))
    ensures Read(ComputeInterfaceId(selectors)) == XorAll(Values(selectors))
  {
    ZeroText();
    FoldIsXor("0x00000000", selectors);
    XorLaws(XorAll(Values(selectors)), ZERO, ZERO);
    XorLaws(ZERO, XorAll(Values(selectors)), ZERO);
    WrittenReadsBack(XorAll(Values(selectors)));
  }

  lemma {:induction false} XorAllAppend(a: seq<Bytes4>, b: seq<Bytes4>)
    ensures XorAll(a + b) == Xor(XorAll(a), XorAll(b))
  {
    if a == [] {
      assert a + b == b;
      XorLaws(ZERO, XorAll(b), ZERO);
      XorLaws(XorAll(b), ZERO, ZERO);
    } else {
      assert (a + b)[1..] == a[1..] + b;
      XorAllAppend(a[1..], b);
      XorLaws(a[0], XorAll(a[1..]), XorAll(b));
    }
  }

  lemma XorAllAround(before: seq<Bytes4>, v: Bytes4, after: seq<Bytes4>)
    ensures XorAll(before + ([v] + after)) == Xor(v, XorAll(before + after))
  {
    XorAllAppend(before, [v] + after);
    XorAllAppend(before, after);
    assert ([v] + after)[1..] == after;
    XorLaws(XorAll(before), v, XorAll(after));
    XorLaws(v, XorAll(before), XorAll(after));
  }

  lemma {:induction false} XorAllPermuted(a: seq<Bytes4>, b: seq<Bytes4>)
    requires multiset(a) == multiset(b)
    ensures XorAll(a) == XorAll(b)
    decreases |a|
  {
    assert |a| == |multiset(a)| == |multiset(b)| == |b|;
    if a != [] {
      assert a[0] in multiset(b);
      var k :| 0 <= k < |b| && b[k] == a[0];
      TakenOut(a, b, k);
      XorAllPermuted(a[1..], b[..k] + b[k + 1..]);
      XorAllAround(b[..k], a[0], b[k + 1..]);
      assert b == b[..k] + ([a[0]] + b[k + 1..]);
    }
  }

  lemma ValuesPermuted(selectors: seq<string>, permuted: seq<string>)
    requires forall i | 0 <= i < |selectors| :: |selectors[i]| == 10
    requires forall i | 0 <= i < |permuted| :: |permuted[i]| == 10
    requires multiset(selectors) == multiset(permuted)
    ensures multiset(Values(selectors)) == multiset(Values(permuted))
  {
    var value := (t: string) => if |t| == 10 then Read(t) else ZERO;
    ImagesPermuted(value, selectors, permuted);
    assert Values(selectors) == Mapped(value, selectors) && Values(permuted) == Mapped(value, permuted);
  }

  /** The id does not depend on the order of declaration. */
  lemma IdIgnoresOrder(selectors: seq<string>, permuted: seq<string>)
    requires forall i | 0 <= i < |selectors| :: |selectors[i]| == 10
    requires forall i | 0 <= i < |permuted| :: |permuted[i]| == 10
    requires multiset(Values(selectors)) == multiset(Values(permuted))
    ensures ComputeInterfaceId(selectors) == ComputeInterfaceId(permuted)
  {
    IdIsXor(selectors);
    IdIsXor(permuted);
    XorAllPermuted(Values(selectors), Values(permuted));
  }

  /** The id of an interface in two parts is the XOR of the parts' ids. */
  lemma IdOfParts(a: seq<string>, b: seq<string>)
    requires forall i | 0 <= i < |a| :: |a[i]| == 10
    requires forall i | 0 <= i < |b| :: |b[i]| == 10
    ensures ComputeInterfaceId(a + b) == XorTexts(ComputeInterfaceId(a), ComputeInterfaceId(b))
  {
    var ab := a + b;
    assert ComputeInterfaceId(ab) == Write(Xor(XorAll(Values(a)), XorAll(Values(b)))) by {
      IdIsXor(ab);
      assert Values(ab) == Values(a) + Values(b);
      XorAllAppend(Values(a), Values(b));
    }
    IdIsXor(a);
    IdIsXor(b);
  }

  /** A selector that is declared twice cancels itself. */
  lemma DuplicateCancels(selectors: seq<string>, twice: string)
    requires |twice| == 10 && forall i | 0 <= i < |selectors| :: |selectors[i]| == 10
    ensures ComputeInterfaceId([twice, twice] + selectors) == ComputeInterfaceId(selectors)
  {
    var all := [twice, twice] + selectors;
    IdIsXor(all);
    IdIsXor(selectors);
    var v := Read(twice);
    assert Values(all) == [v, v] + Values(selectors);
    assert ([v, v] + Values(selectors))[1..] == [v] + Values(selectors);
    assert ([v] + Values(selectors))[1..] == Values(selectors);
    XorLaws(v, v, XorAll(Values(selectors)));
    XorLaws(ZERO, XorAll(Values(selectors)), ZERO);
    XorLaws(XorAll(Values(selectors)), ZERO, ZERO);
  }
}
