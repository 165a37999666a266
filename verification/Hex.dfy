/** Hexadecimal input and output of the big integers. */
module Hex {
  import opened Limbs
  import opened Residues
  import opened BigInts
  import opened Powers
  import opened Digits

  predicate IsHex(c: char) {
    '0' <= c <= '9' || 'A' <= c <= 'F' || 'a' <= c <= 'f'
  }

  /** The constructor's three-way case on a character. */
  function DigitOf(c: char): (d: nat)
    requires IsHex(c)
    ensures d < 16
  {
    if c <= '9' then c as int - '0' as int
    else if c <= 'F' then c as int - 'A' as int + 10
    else c as int - 'a' as int + 10
  }

  /** Digits are read in either case. */
  lemma BothCases(d: nat)
    requires d < 16
    ensures IsHex("0123456789ABCDEF"[d]) && DigitOf("0123456789ABCDEF"[d]) == d
    ensures IsHex("0123456789abcdef"[d]) && DigitOf("0123456789abcdef"[d]) == d
  {
  }

  predicate IsHexString(s: string) {
    forall i :: 0 <= i < |s| ==> IsHex(s[i])
  }

  /** The number a hexadecimal string denotes. */
  function HexValue(s: string): nat
    requires IsHexString(s)
  {
    if |s| == 0 then 0 else HexValue(s[..|s| - 1]) * 16 + DigitOf(s[|s| - 1])
  }

  lemma HexPrefix(s: string, i: nat)
    requires IsHexString(s) && i < |s|
    ensures HexValue(s[..i + 1]) == HexValue(s[..i]) * 16 + DigitOf(s[i])
  {
    assert s[..i + 1][..i] == s[..i];
  }

  function Pow16(j: nat): (p: nat)
    ensures p > 0
  {
    if j == 0 then 1 else 16 * Pow16(j - 1)
  }

  lemma Pow16Eight()
    ensures Pow16(8) == BASE
  {
    assert Pow16(4) == 65536;
  }

  lemma {:induction false} Pow16Grows(i: nat, j: nat)
    requires i <= j
    ensures Pow16(i) <= Pow16(j)
  {
    if i < j {
      Pow16Grows(i, j - 1);
    }
  }

  /** One character shifted into a limb that still has room. */
  lemma ShiftIn(limb: nat, d: nat, j: nat)
    requires limb < Pow16(j) && d < 16 && j < 8
    ensures limb * 16 + d < Pow16(j + 1) <= BASE
  {
    Pow16Eight();
    Pow16Grows(j + 1, 8);
  }

  /** `myBigInt(char* c)`: the incomplete limb first, then eight characters a limb. */
  method FromHex(c: string, ints: nat) returns (r: BigInt)
    requires IsHexString(c) && |c| <= 8 * ints
    ensures fresh(r) && fresh(r.data) && r.data.Length == ints
    ensures r.Val() == HexValue(c)
  {
    hide HexValue, LimbValue;
    r := new BigInt(ints);
    var level, first := |c| / 8, |c| % 8;
    Zeros(r.data[..]);
    NoCharacters(c);
    assert forall x :: 0 <= x <= ints ==> r.data[..][..x] == r.data[..x];
    if first > 0 {
      ParseLimb(r, c, ints - 1 - level, 0, first);
    }
    var flag := first;
    var i := ints - level;
    assert LimbValue(r.data[..][..i]) == HexValue(c[..flag]) && r.data[..][..i] == r.data[..i];
    while i < ints
      invariant ints - level <= i <= ints == r.data.Length && flag == first + 8 * (i - (ints - level))
      invariant forall x :: i <= x < ints ==> r.data[x] == 0
      invariant LimbValue(r.data[..i]) == HexValue(c[..flag])
    {
      ParseLimb(r, c, i, flag, 8);
      flag := flag + 8;
      i := i + 1;
    }
    assert r.data[..] == r.data[..i] && c[..flag] == c;
  }

  /** `count` characters from `flag` on are shifted into limb i. */
  method ParseLimb(r: BigInt, c: string, i: nat, flag: nat, count: nat)
    requires IsHexString(c) && i < r.data.Length && 0 < count <= 8 && flag + count <= |c|
    requires r.data[i] == 0 && LimbValue(r.data[..i]) == HexValue(c[..flag])
    requires count < 8 ==> HexValue(c[..flag]) == 0
    modifies r.data
    ensures forall x :: 0 <= x < r.data.Length && x != i ==> r.data[x] == old(r.data[x])
    ensures LimbValue(r.data[..i + 1]) == HexValue(c[..flag + count])
  {
    hide HexValue, LimbValue, Pow16, DigitOf, Parsed;
    ghost var high := HexValue(c[..flag]);
    ghost var before := r.data[..i];
    ParseStart(c, flag, high);
    var j := 0;
    while j < count
      invariant 0 <= j <= count
      invariant forall x :: 0 <= x < r.data.Length && x != i ==> r.data[x] == old(r.data[x])
      invariant Parsed(c, flag, j, high, r.data[i])
    {
      ParseStep(c, flag, j, high, r.data[i]);
      r.data[i] := r.data[i] as int * 16 % 0x1_0000_0000;
      r.data[i] := (r.data[i] as int + DigitOf(c[flag + j])) % 0x1_0000_0000;
      j := j + 1;
    }
    assert r.data[..i] == before;
    assert r.data[..][..i] == r.data[..i] && r.data[..][..i + 1] == r.data[..i + 1];
    PrefixValue(r.data[..], i);
    ParseEnd(c, flag, count, high, r.data[i]);
  }

  /** After j characters the limb holds what they say. */
  ghost predicate Parsed(c: string, flag: nat, j: nat, high: nat, limb: nat)
    requires IsHexString(c) && flag + j <= |c|
  {
    limb < Pow16(j) && HexValue(c[..flag + j]) == high * Pow16(j) + limb
  }

  lemma ParseStart(c: string, flag: nat, high: nat)
    requires IsHexString(c) && flag <= |c| && high == HexValue(c[..flag])
    ensures Parsed(c, flag, 0, high, 0)
  {
    PowerZero(high);
  }

  lemma ParseStep(c: string, flag: nat, j: nat, high: nat, limb: nat)
    requires IsHexString(c) && flag + j < |c| && j < 8 && Parsed(c, flag, j, high, limb)
    ensures limb * 16 < BASE && limb * 16 + DigitOf(c[flag + j]) < BASE
    ensures Parsed(c, flag, j + 1, high, limb * 16 + DigitOf(c[flag + j]))
  {
    hide HexValue, Pow16;
    HexPrefix(c, flag + j);
    ShiftIn(limb, DigitOf(c[flag + j]), j);
    NextPower(high, j);
  }

  lemma ParseEnd(c: string, flag: nat, count: nat, high: nat, limb: nat)
    requires IsHexString(c) && flag + count <= |c| && Parsed(c, flag, count, high, limb)
    requires count == 8 || high == 0
    ensures HexValue(c[..flag + count]) == high * BASE + limb
  {
    Pow16Eight();
  }

  lemma NoCharacters(c: string)
    requires IsHexString(c)
    ensures HexValue(c[..0]) == 0
  {
  }

  lemma PowerZero(high: nat)
    ensures Pow16(0) == 1 && high * Pow16(0) == high
  {
  }

  lemma NextPower(high: nat, j: nat)
    ensures high * Pow16(j + 1) == (high * Pow16(j)) * 16
  {
    assert Pow16(j + 1) == 16 * Pow16(j);
  }

  lemma {:induction false} Zeros(s: seq<Limb>)
    requires forall i :: 0 <= i < |s| ==> s[i] == 0
    ensures forall i :: 0 <= i <= |s| ==> LimbValue(s[..i]) == 0
  {
    forall i | 0 <= i <= |s|
      ensures LimbValue(s[..i]) == 0
    {
      ZeroPrefix(s, i);
    }
  }

  lemma {:induction false} ZeroPrefix(s: seq<Limb>, i: nat)
    requires i <= |s| && forall x :: 0 <= x < |s| ==> s[x] == 0
    ensures LimbValue(s[..i]) == 0
  {
    if i > 0 {
      ZeroPrefix(s, i - 1);
      PrefixValue(s, i - 1);
    }
  }

  /** `print(1)` for one limb: eight lower-case digits, zero-filled. */
  function LimbHex(d: nat, width: nat): (s: string)
    ensures |s| == width
  {
    if width == 0 then "" else LimbHex(d / 16, width - 1) + [HexChar(d % 16)]
  }

  function HexChar(d: nat): char
    requires d < 16
  {
    "0123456789abcdef"[d]
  }

  lemma {:induction false} LimbHexValue(d: nat, width: nat)
    requires d < Pow16(width)
    ensures IsHexString(LimbHex(d, width)) && HexValue(LimbHex(d, width)) == d
  {
    if width > 0 {
      var q := ModSplit(d, 16);
      LimbHexValue(d / 16, width - 1);
      BothCases(d % 16);
      var s := LimbHex(d, width);
      assert s[..width - 1] == LimbHex(d / 16, width - 1);
    }
  }

  /** `print(1)`: all limbs in order. */
  method PrintHex(a: BigInt) returns (s: string)
    ensures s == AllHex(a.data[..])
  {
    s := "";
    var i := 0;
    while i < a.data.Length
      invariant 0 <= i <= a.data.Length && s == AllHex(a.data[..i])
    {
      s := s + LimbHex(a.data[i], 8);
      assert a.data[..i + 1][..i] == a.data[..i];
      i := i + 1;
    }
    assert a.data[..i] == a.data[..];
  }

  function AllHex(s: seq<Limb>): (h: string)
    ensures |h| == 8 * |s|
  {
    if |s| == 0 then "" else AllHex(s[..|s| - 1]) + LimbHex(s[|s| - 1], 8)
  }

  lemma {:induction false} HexConcat(s: string, e: string)
    requires IsHexString(s) && IsHexString(e)
    ensures IsHexString(s + e) && HexValue(s + e) == HexValue(s) * Pow16(|e|) + HexValue(e)
  {
    if |e| == 0 {
      assert s + e == s;
    } else {
      hide Pow16, DigitOf;
      var n := |e| - 1;
      HexConcat(s, e[..n]);
      assert (s + e)[..|s + e| - 1] == s + e[..n];
      NextPower(HexValue(s), n);
    }
  }

  /** The printed string denotes the number. */
  lemma {:induction false} AllHexValue(s: seq<Limb>)
    ensures IsHexString(AllHex(s)) && HexValue(AllHex(s)) == LimbValue(s)
  {
    if |s| > 0 {
      AllHexValue(s[..|s| - 1]);
      Pow16Eight();
      LimbHexValue(s[|s| - 1], 8);
      HexConcat(AllHex(s[..|s| - 1]), LimbHex(s[|s| - 1], 8));
    }
  }

  /** Character k of a string is the digit of its place, counted from the end. */
  lemma {:induction false} HexDigitAt(s: string, k: nat)
    requires IsHexString(s) && k < |s|
    ensures (HexValue(s) / Pow16(|s| - 1 - k)) % 16 == DigitOf(s[k])
  {
    var n := |s| - 1;
    var v, h, d := HexValue(s), HexValue(s[..n]), DigitOf(s[n]);
    assert v == 16 * h + d;
    PowerZero(0);
    hide DigitOf, HexValue;
    ModUnique(v, 16, h, d);
    if k < n {
      HexDigitAt(s[..n], k);
      PowerNext(n - 1 - k);
      hide Pow16;
      DivDiv(v, 16, Pow16(n - 1 - k));
    }
  }

  lemma PowerNext(j: nat)
    ensures Pow16(j + 1) == 16 * Pow16(j)
  {
  }

  /** Each printed character, outright: the digit of its place, in lower case. */
  lemma PrintedDigit(s: seq<Limb>, k: nat)
    requires k < 8 * |s|
    ensures AllHex(s)[k] == "0123456789abcdef"[(LimbValue(s) / Pow16(8 * |s| - 1 - k)) % 16]
  {
    hide HexValue, LimbValue, DigitOf, AllHex, Pow16;
    AllHexValue(s);
    HexDigitAt(AllHex(s), k);
    PrintedIsLower(s, k);
  }

  lemma {:induction false} PrintedIsLower(s: seq<Limb>, k: nat)
    requires k < 8 * |s|
    ensures IsHex(AllHex(s)[k]) && AllHex(s)[k] == "0123456789abcdef"[DigitOf(AllHex(s)[k])]
  {
    var n := |s| - 1;
    if k < 8 * n {
      PrintedIsLower(s[..n], k);
    } else {
      LimbIsLower(s[n], 8, k - 8 * n);
    }
  }

  lemma {:induction false} LimbIsLower(d: nat, width: nat, k: nat)
    requires k < width
    ensures IsHex(LimbHex(d, width)[k]) && LimbHex(d, width)[k] == "0123456789abcdef"[DigitOf(LimbHex(d, width)[k])]
  {
    if k < width - 1 {
      LimbIsLower(d / 16, width - 1, k);
    } else {
      BothCases(d % 16);
    }
  }

  /** The same digits in upper case. */
  function UpperCase(s: string): (u: string)
    requires IsHexString(s)
    ensures |u| == |s|
  {
    seq(|s|, i requires 0 <= i < |s| => "0123456789ABCDEF"[DigitOf(s[i])])
  }

  /** Strings that differ only in the case of some digits denote the same number. */
  lemma {:induction false} CaseIsIgnored(s: string, u: string)
    requires IsHexString(s) && |u| == |s|
    requires forall i :: 0 <= i < |s| ==> u[i] == s[i] || u[i] == UpperCase(s)[i]
    ensures IsHexString(u) && HexValue(u) == HexValue(s)
  {
    forall i | 0 <= i < |s|
      ensures IsHex(u[i]) && DigitOf(u[i]) == DigitOf(s[i])
    {
      BothCases(DigitOf(s[i]));
    }
    SameDigits(s, u);
  }

  lemma {:induction false} SameDigits(s: string, u: string)
    requires IsHexString(s) && IsHexString(u) && |u| == |s|
    requires forall i :: 0 <= i < |s| ==> DigitOf(u[i]) == DigitOf(s[i])
    ensures HexValue(u) == HexValue(s)
  {
    if |s| > 0 {
      hide DigitOf;
      SameDigits(s[..|s| - 1], u[..|s| - 1]);
    }
  }

  /** Printing and parsing gives the limbs back, whichever of the printed digits are put in upper case before. */
  method RoundTrip(a: BigInt, upper: set<nat>) returns (b: BigInt)
    ensures b.data[..] == a.data[..]
  {
    hide UpperCase, AllHex, HexValue, DigitOf;
    var s := PrintHex(a);
    AllHexValue(a.data[..]);
    var u := seq(|s|, i requires 0 <= i < |s| => if i in upper then UpperCase(s)[i] else s[i]);
    CaseIsIgnored(s, u);
    b := FromHex(u, a.data.Length);
    LimbsOfUnique(a.data[..]);
    LimbsOfUnique(b.data[..]);
  }
}
