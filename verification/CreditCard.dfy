/** The card number check of the validation plugin. */
module CreditCards {
  type Digit = x: int | 0 <= x < 10

  /** The digit sum of twice a digit. */
  function Doubled(d: Digit): Digit {
    (2 * d) / 10 + (2 * d) % 10
  }

  /** What the i-th digit contributes: every second one from the right, not the last, is doubled. */
  function Contribution(ds: seq<Digit>, i: nat): Digit
    requires i < |ds|
  {
    if (|ds| - 1 - i) % 2 == 1 then Doubled(ds[i]) else ds[i]
  }

  /** The contributions of the digits from i on. */
  function SumFrom(ds: seq<Digit>, i: nat): nat
    requires i <= |ds|
    decreases |ds| - i
  {
    if i == |ds| then 0 else Contribution(ds, i) + SumFrom(ds, i + 1)
  }

  /** The sum of Annex B of ISO/IEC 7812-1 is a multiple of ten. */
  predicate Accepted(ds: seq<Digit>) {
    SumFrom(ds, 0) % 10 == 0
  }

  // ----- the sum as the standard has it, from the right -----

  /** Of the digits, the last one counts as it is or doubled, and then the others by turns. */
  function FromRight(ds: seq<Digit>, doubled: bool): nat {
    if ds == [] then 0
    else
      var d: int := ds[|ds| - 1];
      FromRight(ds[..|ds| - 1], !doubled) + (if !doubled then d else if d < 5 then 2 * d else 2 * d - 9)
  }

  lemma {:induction false} PartFromRight(ds: seq<Digit>, k: nat)
    requires k <= |ds|
    ensures SumFrom(ds, 0) == FromRight(ds[..k], (|ds| - k) % 2 == 1) + SumFrom(ds, k)
    decreases k
  {
    if k > 0 {
      PartFromRight(ds, k - 1);
      DoubledIs(ds[k - 1]);
      assert ds[..k][..k - 1] == ds[..k - 1];
    }
  }

  /** The sum of Annex B of ISO/IEC 7812-1: the digit on the right counts as it is. */
  lemma SumIsFromRight(ds: seq<Digit>)
    ensures SumFrom(ds, 0) == FromRight(ds, false)
    ensures Accepted(ds) <==> FromRight(ds, false) % 10 == 0
  {
    PartFromRight(ds, |ds|);
    assert ds[..|ds|] == ds;
  }

  lemma DoubledIs(d: Digit)
    ensures Doubled(d) == if d < 5 then 2 * d else 2 * d - 9
  {
  }

  lemma SmallChange(sum: int, change: int)
    requires sum % 10 == 0 && -9 <= change <= 9
    ensures (sum + change) % 10 == 0 <==> change == 0
  {
  }

  lemma {:induction false} SumChanged(ds: seq<Digit>, es: seq<Digit>, i: nat, k: nat)
    requires k < |ds| == |es| && i <= k && forall j :: i <= j < |ds| && j != k ==> ds[j] == es[j]
    ensures SumFrom(es, i) - SumFrom(ds, i) == Contribution(es, k) - Contribution(ds, k)
    decreases |ds| - i
  {
    if i < k {
      SumChanged(ds, es, i + 1, k);
    } else {
      SumSame(ds, es, i + 1);
    }
  }

  lemma {:induction false} SumSame(ds: seq<Digit>, es: seq<Digit>, i: nat)
    requires i <= |ds| == |es| && forall j :: i <= j < |ds| ==> ds[j] == es[j]
    ensures SumFrom(ds, i) == SumFrom(es, i)
    decreases |ds| - i
  {
    if i < |ds| {
      SumSame(ds, es, i + 1);
    }
  }

  /** Of all digits that may stand in a place of an accepted number, only one is accepted there. */
  lemma SingleDigitChange(ds: seq<Digit>, k: nat, d: Digit)
    requires Accepted(ds) && k < |ds| && d != ds[k]
    ensures !Accepted(ds[k := d])
  {
    DoubledIs(d);
    DoubledIs(ds[k]);
    hide Doubled;
    SumChanged(ds, ds[k := d], 0, k);
    SmallChange(SumFrom(ds, 0), Contribution(ds[k := d], k) - Contribution(ds, k));
  }

  function Swapped(ds: seq<Digit>, k: nat): seq<Digit>
    requires k + 1 < |ds|
  {
    ds[k := ds[k + 1]][k + 1 := ds[k]]
  }

  /** Exchanging two neighbouring digits of an accepted number goes unnoticed just for 0 and 9. */
  lemma AdjacentSwap(ds: seq<Digit>, k: nat)
    requires Accepted(ds) && k + 1 < |ds| && ds[k] != ds[k + 1]
    ensures Accepted(Swapped(ds, k)) <==> {ds[k], ds[k + 1]} == {0, 9}
  {
    var change := SumFrom(Swapped(ds, k), 0) - SumFrom(ds, 0);
    SwapChange(ds, k);
    hide SumFrom, Swapped, Doubled;
    SwapDifference(ds[k], ds[k + 1]);
    SmallChange(SumFrom(ds, 0), change);
    Pair(ds[k], ds[k + 1]);
  }

  lemma SwapChange(ds: seq<Digit>, k: nat)
    requires k + 1 < |ds|
    ensures var change, a, b := SumFrom(Swapped(ds, k), 0) - SumFrom(ds, 0), ds[k], ds[k + 1];
      change == (Doubled(a) - a) - (Doubled(b) - b) || change == (Doubled(b) - b) - (Doubled(a) - a)
  {
    hide Doubled;
    var es, fs := ds[k := ds[k + 1]], Swapped(ds, k);
    SumChanged(ds, es, 0, k);
    SumChanged(es, fs, 0, k + 1);
  }

  lemma Pair(a: Digit, b: Digit)
    requires a != b
    ensures {a, b} == {0, 9} <==> (a == 0 && b == 9) || (a == 9 && b == 0)
  {
    if {a, b} == {0, 9} {
      assert a in {0, 9} && b in {0, 9};
    }
  }

  /** How much the sum changes when two neighbours change places. */
  lemma SwapDifference(a: Digit, b: Digit)
    requires a != b
    ensures var change := (Doubled(a) - a) - (Doubled(b) - b);
      -9 <= change <= 9 && (change == 0 <==> (a == 0 && b == 9) || (a == 9 && b == 0))
  {
    DoubledIs(a);
    DoubledIs(b);
    hide Doubled;
  }

  // ----- the method -----

  predicate IsDigit(c: char) {
    '0' <= c <= '9'
  }

  predicate Allowed(c: char)
    ensures Allowed(c) <==> c in "0123456789 -"
  {
    IsDigit(c) || c == ' ' || c == '-'
  }

  /** The digits of a text. */
  function Digits(value: string): seq<Digit> {
    if value == [] then []
    else (if IsDigit(value[0]) then [value[0] as int - '0' as int] else []) + Digits(value[1..])
  }

  /** The digits of texts one after the other, and of single characters. */
  lemma {:induction false} DigitsExactly(s: string, t: string, c: char)
    ensures Digits(s + t) == Digits(s) + Digits(t)
    ensures Digits([c]) == if '0' <= c <= '9' then [c as int - '0' as int] else []
  {
    assert [c][1..] == [];
    if s == [] {
      assert s + t == t;
    } else {
      DigitsExactly(s[1..], t, c);
      assert (s + t)[1..] == s[1..] + t;
    }
  }

  /** value.replace(/\D/g, "") */
  method OnlyDigits(value: string) returns (s: string)
    ensures forall i :: 0 <= i < |s| ==> IsDigit(s[i])
    ensures Digits(s) == Digits(value) && |Digits(s)| == |s|
    ensures forall i :: 0 <= i < |s| ==> Digits(s)[i] == s[i] as int - '0' as int
  {
    hide Digits;
    s := "";
    for n := 0 to |value|
      invariant forall i :: 0 <= i < |s| ==> IsDigit(s[i])
      invariant Digits(s) == Digits(value[..n])
    {
      assert value[..n + 1] == value[..n] + [value[n]];
      DigitsAppend(value[..n], value[n]);
      DigitsAppend(s, value[n]);
      if IsDigit(value[n]) {
        s := s + [value[n]];
      }
    }
    assert value[..|value|] == value;
    DigitsOf(s);
  }

  lemma {:induction false} DigitsAppend(s: string, c: char)
    ensures Digits(s + [c]) == Digits(s) + (if IsDigit(c) then [c as int - '0' as int] else [])
  {
    if s == [] {
      assert s + [c] == [c] && [c][1..] == [];
    } else {
      assert (s + [c])[1..] == s[1..] + [c];
      DigitsAppend(s[1..], c);
    }
  }

  lemma {:induction false} DigitsOf(s: string)
    requires forall i :: 0 <= i < |s| ==> IsDigit(s[i])
    ensures |Digits(s)| == |s| && forall i :: 0 <= i < |s| ==> Digits(s)[i] == s[i] as int - '0' as int
  {
    if s != [] {
      DigitsOf(s[1..]);
    }
  }

  /** creditcard, for a value that is not optional. */
  method CreditCard(value: string) returns (ok: bool)
    ensures ok <==> (forall i :: 0 <= i < |value| ==> value[i] in "0123456789 -")
                    && FromRight(Digits(value), false) % 10 == 0
  {
    SumIsFromRight(Digits(value));
    hide Digits, Doubled;
    for i := 0 to |value|
      invariant forall j :: 0 <= j < i ==> Allowed(value[j])
    {
      if !Allowed(value[i]) {
        return false;
      }
    }
    var digits := OnlyDigits(value);
    ghost var ds := Digits(digits);
    var nCheck, nDigit, bEven := 0, 0, false;
    var n := |digits| - 1;
    while n >= 0
      invariant -1 <= n < |digits|
      invariant nCheck == SumFrom(ds, n + 1)
      invariant bEven <==> (|ds| - 1 - n) % 2 == 1
    {
      nDigit := digits[n] as int - '0' as int;
      DoubledIs(ds[n]);
      hide Accepted;
      if bEven {
        nDigit := nDigit * 2;
        if nDigit > 9 {
          nDigit := nDigit - 9;
        }
      }
      assert nDigit == Contribution(ds, n);
      nCheck := nCheck + nDigit;
      bEven := !bEven;
      n := n - 1;
    }
    ok := nCheck % 10 == 0;
  }
}
