/**
  Signed integers kept as decimal digit strings: the schoolbook loops that add,
  subtract, multiply and divide such strings, and the signed operators built on them.
*/
module BigInteger {

  /** Longest dividend the quotient buffer has room for. */
  const MAX: nat := 10000

  const LONG_LONG_MAX: int := 0x7FFF_FFFF_FFFF_FFFF

  // --------------------------------------------------------- strings as numbers

  function Dig(c: char): int { c as int - '0' as int }

  function Chr(d: int): char
    requires 0 <= d + '0' as int < 256
  {
    (d + '0' as int) as char
  }

  predicate IsDigits(s: string) { forall k :: 0 <= k < |s| ==> '0' <= s[k] <= '9' }

  /** No leading zeros; zero is "0". */
  predicate Canonical(s: string) { IsDigits(s) && s != [] && (s[0] == '0' ==> |s| == 1) }

  /** The number a string stands for, most significant character first. */
  function Num(s: string): int {
    if s == [] then 0 else 10 * Num(s[..|s| - 1]) + Dig(s[|s| - 1])
  }

  function Pow10(n: nat): nat { if n == 0 then 1 else 10 * Pow10(n - 1) }

  function Zeros(n: nat): string { seq(n, _ => '0') }

  lemma {:induction false} Pow10Positive(n: nat)
    ensures Pow10(n) >= 1
  {
    if n > 0 { Pow10Positive(n - 1); }
  }

  lemma {:induction false} Pow10Monotone(m: nat, n: nat)
    requires m <= n
    ensures Pow10(m) <= Pow10(n)
    decreases n
  {
    if m < n { Pow10Monotone(m, n - 1); }
  }

  lemma {:induction false} NumCons(c: char, s: string)
    ensures Num([c] + s) == Dig(c) * Pow10(|s|) + Num(s)
  {
    var t := [c] + s;
    if s == [] {
      assert t[..0] == [];
    } else {
      assert t[..|t| - 1] == [c] + s[..|s| - 1];
      NumCons(c, s[..|s| - 1]);
    }
  }

  /** Splitting off the first character of a suffix. */
  lemma NumSuffix(s: string, i: nat)
    requires i < |s|
    ensures Num(s[i..]) == Dig(s[i]) * Pow10(|s| - 1 - i) + Num(s[i + 1..])
  {
    assert s[i..] == [s[i]] + s[i + 1..];
    NumCons(s[i], s[i + 1..]);
  }

  /** Splitting off the last character of a prefix. */
  lemma NumPrefix(s: string, i: nat)
    requires i < |s|
    ensures Num(s[..i + 1]) == 10 * Num(s[..i]) + Dig(s[i])
  {
    assert s[..i + 1][..i] == s[..i];
  }

  lemma {:induction false} NumBounds(s: string)
    requires IsDigits(s)
    ensures 0 <= Num(s) < Pow10(|s|)
  {
    if s != [] { NumBounds(s[..|s| - 1]); }
  }

  lemma NumAtLeast(s: string)
    requires IsDigits(s) && s != [] && s[0] != '0'
    ensures Pow10(|s| - 1) <= Num(s)
  {
    assert s == [s[0]] + s[1..];
    NumCons(s[0], s[1..]);
    NumBounds(s[1..]);
    Pow10Positive(|s| - 1);
  }

  lemma {:induction false} NumZerosLeft(n: nat, s: string)
    ensures Num(Zeros(n) + s) == Num(s)
  {
    if n == 0 {
      assert Zeros(0) + s == s;
    } else {
      assert Zeros(n) + s == ['0'] + (Zeros(n - 1) + s);
      NumCons('0', Zeros(n - 1) + s);
      NumZerosLeft(n - 1, s);
    }
  }

  lemma {:induction false} NumZerosRight(s: string, n: nat)
    ensures Num(s + Zeros(n)) == Num(s) * Pow10(n)
  {
    if n == 0 {
      assert s + Zeros(0) == s;
    } else {
      var t := s + Zeros(n);
      assert t[..|t| - 1] == s + Zeros(n - 1);
      NumZerosRight(s, n - 1);
    }
  }

  /** A longer canonical string is a larger number. */
  lemma LongerIsLarger(a: string, b: string)
    requires Canonical(a) && Canonical(b) && |a| < |b|
    ensures Num(a) < Num(b)
  {
    NumBounds(a);
    NumAtLeast(b);
    Pow10Monotone(|a|, |b| - 1);
  }

  /** Character-wise order, as std::string compares. */
  predicate LexLess(a: string, b: string) {
    b != [] && (a == [] || a[0] < b[0] || (a[0] == b[0] && LexLess(a[1..], b[1..])))
  }

  /** On digit strings of equal length the character-wise order is the numeric one. */
  lemma {:induction false} LexIsNumeric(a: string, b: string)
    requires IsDigits(a) && IsDigits(b) && |a| == |b|
    ensures LexLess(a, b) <==> Num(a) < Num(b)
    ensures a == b <==> Num(a) == Num(b)
  {
    hide Pow10;
    if a != [] {
      LexIsNumeric(a[1..], b[1..]);
      assert a == [a[0]] + a[1..] && b == [b[0]] + b[1..];
      NumCons(a[0], a[1..]);
      NumCons(b[0], b[1..]);
      NumBounds(a[1..]);
      NumBounds(b[1..]);
      LeadingDigitDecides(Dig(a[0]), Num(a[1..]), Dig(b[0]), Num(b[1..]), Pow10(|a| - 1));
    }
  }

  lemma LeadingDigitDecides(x: int, r: int, y: int, s: int, p: nat)
    requires 0 <= r < p && 0 <= s < p
    ensures x < y ==> x * p + r < y * p + s
    ensures x > y ==> x * p + r > y * p + s
  {
    if x < y { assert y * p >= (x + 1) * p; }
    if x > y { assert x * p >= (y + 1) * p; }
  }

  lemma CanonicalUnique(a: string, b: string)
    requires Canonical(a) && Canonical(b) && Num(a) == Num(b)
    ensures a == b
  {
    if |a| < |b| { LongerIsLarger(a, b); }
    if |b| < |a| { LongerIsLarger(b, a); }
    LexIsNumeric(a, b);
  }

  // ---------------------------------------------------------------- digit loops

  method StripZeros(s: string) returns (r: string)
    requires IsDigits(s) && s != []
    ensures Canonical(r) && Num(r) == Num(s)
  {
    r := s;
    while r[0] == '0' && |r| != 1
      invariant IsDigits(r) && r != [] && Num(r) == Num(s)
      decreases |r|
    {
      NumSuffix(r, 0);
      assert r[0..] == r;
      r := r[1..];
    }
  }

  method PadLeft(s: string, n: nat) returns (r: string)
    requires IsDigits(s)
    ensures IsDigits(r) && |r| == |s| + n && Num(r) == Num(s)
    ensures n == 0 ==> r == s
  {
    NumZerosLeft(n, s);
    r := Zeros(n) + s;
  }

  /** The columns from i on have been added: `add` holds them, `carry` goes to column i - 1. */
  ghost predicate Added(a: string, b: string, add: string, i: nat, carry: int)
    requires i <= |a| == |b| == |add|
  {
    Num(a[i..]) + Num(b[i..]) == Num(add[i..]) + carry * Pow10(|add| - i)
  }

  lemma AddStart(a: string, b: string, add: string)
    requires |a| == |b| == |add|
    ensures Added(a, b, add, |add|, 0)
  {
  }

  lemma AddStep(a: string, b: string, add: string, i: nat, carry: int, digit: char, carry': int)
    requires i < |a| == |b| == |add| && Added(a, b, add, i + 1, carry)
    requires carry + Dig(a[i]) + Dig(b[i]) == Dig(digit) + 10 * carry'
    ensures Added(a, b, add[i := digit], i, carry')
  {
    var add' := add[i := digit];
    var p := Pow10(|add| - 1 - i);
    NumSuffix(a, i);
    NumSuffix(b, i);
    NumSuffix(add', i);
    assert add'[i + 1..] == add[i + 1..];
    Column(Dig(a[i]), Dig(b[i]), carry, Dig(digit), carry', p);
  }

  lemma AddEnd(a: string, b: string, add: string)
    requires |a| == |b| == |add| && Added(a, b, add, 0, 0)
    ensures Num(add) == Num(a) + Num(b)
  {
    assert a[0..] == a && b[0..] == b && add[0..] == add;
  }

  lemma Column(a: int, b: int, carryIn: int, digit: int, carryOut: int, p: nat)
    requires a + b + carryIn == digit + 10 * carryOut
    ensures a * p + b * p + carryIn * p == digit * p + carryOut * (10 * p)
  {
    assert (a + b + carryIn) * p == (digit + 10 * carryOut) * p;
  }

  /** A first column above nine becomes a digit and a leading one. */
  lemma LeadingCarry(add: string, top: char)
    requires add != [] && Dig(top) == Dig(add[0]) - 10
    ensures Num(['1'] + add[0 := top]) == Num(add)
  {
    hide Num;
    hide Pow10;
    var low := add[0 := top];
    assert add == [add[0]] + add[1..] && low == [top] + add[1..];
    NumCons(add[0], add[1..]);
    NumCons(top, add[1..]);
    NumCons('1', low);
    Pow10Next(|add| - 1);
    CarryOut(Dig(add[0]), Pow10(|add| - 1), Pow10(|add|));
  }

  lemma Pow10Next(n: nat)
    ensures Pow10(n + 1) == 10 * Pow10(n)
  {
  }

  lemma CarryOut(d: int, p: nat, q: nat)
    requires q == 10 * p
    ensures d * p == (d - 10) * p + q
  {
  }

  /** Column addition from the right; the last carry is put in front. */
  method Add(first: string, second: string) returns (add: string)
    requires IsDigits(first) && IsDigits(second) && first != [] && second != []
    ensures IsDigits(add) && add != [] && Num(add) == Num(first) + Num(second)
    ensures Canonical(first) && Canonical(second) ==> Canonical(add)
  {
    hide Added;
    hide Num;
    hide Pow10;
    var number1, number2 := first, second;
    add := if |number1| > |number2| then number1 else number2;
    if |number1| > |number2| {
      number2 := PadLeft(number2, |number1| - |number2|);
    } else {
      number1 := PadLeft(number1, |number2| - |number1|);
    }
    var carry := '0';
    var i := |add| - 1;
    AddStart(number1, number2, add);
    while i >= 0
      invariant -1 <= i < |add| == |number1| == |number2|
      invariant carry == '0' || carry == '1'
      invariant forall k :: 0 < k < |add| ==> '0' <= add[k] <= '9'
      invariant i >= 0 ==> '0' <= add[0] <= '9' && Added(number1, number2, add, i + 1, Dig(carry))
      invariant i < 0 ==> Added(number1, number2, add, 0, 0) && Dig(number1[0]) + Dig(number2[0]) <= Dig(add[0]) <= 19
    {
      var sum := Dig(carry) + Dig(number1[i]) + Dig(number2[i]);
      if i == 0 {
        AddStep(number1, number2, add, i, Dig(carry), Chr(sum), 0);
        add := add[i := Chr(sum)];
      } else if sum > 9 {
        AddStep(number1, number2, add, i, Dig(carry), Chr(sum - 10), 1);
        add := add[i := Chr(sum - 10)];
        carry := '1';
      } else {
        AddStep(number1, number2, add, i, Dig(carry), Chr(sum), 0);
        add := add[i := Chr(sum)];
        carry := '0';
      }
      i := i - 1;
    }
    AddEnd(number1, number2, add);
    if add[0] > '9' {
      LeadingCarry(add, Chr(Dig(add[0]) - 10));
      add := add[0 := Chr(Dig(add[0]) - 10)];
      add := ['1'] + add;
    }
  }

  /**
    The columns from i on have been subtracted: `sub` holds them, and `a` is the
    first number with its borrows taken from column i - 1.
  */
  ghost predicate Subtracted(total: int, a: string, b: string, sub: string, i: nat)
    requires i <= |a| == |b| == |sub|
  {
    total == (Num(a[..i]) - Num(b[..i])) * Pow10(|sub| - i) + Num(sub[i..])
  }

  lemma SubtractStart(a: string, b: string, sub: string)
    requires |a| == |b| == |sub|
    ensures Subtracted(Num(a) - Num(b), a, b, sub, |sub|)
  {
    assert a[..|sub|] == a && b[..|sub|] == b;
  }

  lemma SubtractStep(total: int, a: string, b: string, sub: string, i: nat, digit: char)
    requires i < |a| == |b| == |sub| && Subtracted(total, a, b, sub, i + 1)
    requires Dig(digit) == Dig(a[i]) - Dig(b[i])
    ensures Subtracted(total, a, b, sub[i := digit], i)
  {
    var sub' := sub[i := digit];
    NumPrefix(a, i);
    NumPrefix(b, i);
    NumSuffix(sub', i);
    assert sub'[i + 1..] == sub[i + 1..];
    BorrowColumn(Num(a[..i]), Num(b[..i]), Dig(a[i]), Dig(b[i]), Pow10(|sub| - 1 - i));
  }

  lemma BorrowColumn(high1: int, high2: int, d1: int, d2: int, p: nat)
    ensures (10 * high1 + d1 - (10 * high2 + d2)) * p == (high1 - high2) * (10 * p) + (d1 - d2) * p
  {
    assert 10 * high1 + d1 - (10 * high2 + d2) == 10 * (high1 - high2) + (d1 - d2);
  }

  /** Borrowing ten from the column to the left leaves the number as it was. */
  lemma Borrow(total: int, a: string, b: string, sub: string, i: nat, ten: char, less: char)
    requires 0 < i < |a| == |b| == |sub| && Subtracted(total, a, b, sub, i + 1)
    requires Dig(ten) == Dig(a[i]) + 10 && Dig(less) == Dig(a[i - 1]) - 1
    ensures Subtracted(total, a[i := ten][i - 1 := less], b, sub, i + 1)
  {
    var a' := a[i := ten][i - 1 := less];
    NumPrefix(a, i);
    NumPrefix(a, i - 1);
    NumPrefix(a', i);
    NumPrefix(a', i - 1);
    assert a'[..i - 1] == a[..i - 1];
  }

  /** The first column never needs to borrow, since the whole difference is not negative. */
  lemma NoBorrowAtTop(total: int, a: string, b: string, sub: string)
    requires 0 < |a| == |b| == |sub| && Subtracted(total, a, b, sub, 1) && total >= 0 && IsDigits(sub[1..])
    ensures Dig(a[0]) >= Dig(b[0])
  {
    NumBounds(sub[1..]);
    NumPrefix(a, 0);
    NumPrefix(b, 0);
    assert a[..0] == [] && b[..0] == [];
    NotNegative(Dig(a[0]) - Dig(b[0]), Pow10(|sub| - 1), Num(sub[1..]));
  }

  lemma NotNegative(d: int, p: nat, rest: int)
    requires 0 <= rest < p && d * p + rest >= 0
    ensures d >= 0
  {
    assert d < 0 ==> d * p <= 0 - p;
  }

  lemma SubtractEnd(total: int, a: string, b: string, sub: string)
    requires |a| == |b| == |sub| && Subtracted(total, a, b, sub, 0)
    ensures Num(sub) == total
  {
    assert a[..0] == [] && b[..0] == [] && sub[0..] == sub;
  }

  /** Column subtraction from the right, borrowing from the next column; the first must not be smaller. */
  method Subtract(first: string, second: string) returns (sub: string)
    requires IsDigits(first) && IsDigits(second) && first != [] && second != []
    requires Num(first) >= Num(second)
    ensures Canonical(sub) && Num(sub) == Num(first) - Num(second)
  {
    hide Subtracted;
    hide Num;
    hide Pow10;
    var number1, number2 := first, second;
    sub := if |number1| > |number2| then number1 else number2;
    if |number1| > |number2| {
      number2 := PadLeft(number2, |number1| - |number2|);
    } else {
      number1 := PadLeft(number1, |number2| - |number1|);
    }
    ghost var total := Num(first) - Num(second);
    var i := |number1| - 1;
    SubtractStart(number1, number2, sub);
    while i >= 0
      invariant -1 <= i < |sub| == |number1| == |number2|
      invariant forall k :: 0 <= k < i ==> '0' <= number1[k] <= '9'
      invariant i >= 0 ==> -1 <= Dig(number1[i]) <= 9
      invariant forall k :: i < k < |sub| ==> '0' <= sub[k] <= '9'
      invariant Subtracted(total, number1, number2, sub, i + 1)
    {
      if number1[i] < number2[i] {
        if i == 0 {
          NoBorrowAtTop(total, number1, number2, sub);
        }
        Borrow(total, number1, number2, sub, i, Chr(Dig(number1[i]) + 10), Chr(Dig(number1[i - 1]) - 1));
        number1 := number1[i := Chr(Dig(number1[i]) + 10)];
        number1 := number1[i - 1 := Chr(Dig(number1[i - 1]) - 1)];
      }
      SubtractStep(total, number1, number2, sub, i, Chr(Dig(number1[i]) - Dig(number2[i])));
      sub := sub[i := Chr(Dig(number1[i]) - Dig(number2[i]))];
      i := i - 1;
    }
    SubtractEnd(total, number1, number2, sub);
    sub := StripZeros(sub);
  }

  /** The columns from j on have been multiplied by c. */
  ghost predicate Scaled(n: string, c: int, temp: string, j: nat, carry: int)
    requires j <= |n| == |temp|
  {
    Num(n[j..]) * c == Num(temp[j..]) + carry * Pow10(|temp| - j)
  }

  lemma ScaleStart(n: string, c: int, temp: string)
    requires |n| == |temp|
    ensures Scaled(n, c, temp, |temp|, 0)
  {
  }

  lemma ScaleStep(n: string, c: int, temp: string, j: nat, carry: int, digit: char, carry': int)
    requires j < |n| == |temp| && Scaled(n, c, temp, j + 1, carry)
    requires Dig(n[j]) * c + carry == Dig(digit) + 10 * carry'
    ensures Scaled(n, c, temp[j := digit], j, carry')
  {
    var temp' := temp[j := digit];
    NumSuffix(n, j);
    NumSuffix(temp', j);
    assert temp'[j + 1..] == temp[j + 1..];
    ProductColumn(Dig(n[j]), Num(n[j + 1..]), c, carry, Dig(digit), carry', Num(temp[j + 1..]), Pow10(|temp| - 1 - j));
  }

  lemma ProductColumn(d: int, low: int, c: int, carryIn: int, digit: int, carryOut: int, rest: int, p: nat)
    requires d * c + carryIn == digit + 10 * carryOut
    requires low * c == rest + carryIn * p
    ensures (d * p + low) * c == digit * p + rest + carryOut * (10 * p)
  {
    assert (d * c + carryIn) * p == (digit + 10 * carryOut) * p;
    assert (d * p + low) * c == d * c * p + low * c;
  }

  lemma ScaleEnd(n: string, c: int, temp: string, carry: int)
    requires |n| == |temp| && Scaled(n, c, temp, 0, carry) && 0 <= carry <= 9
    ensures Num([Chr(carry)] + temp) == Num(n) * c
    ensures carry == 0 ==> Num(temp) == Num(n) * c
  {
    hide Num;
    assert n[0..] == n && temp[0..] == temp;
    NumCons(Chr(carry), temp);
  }

  lemma DigitProduct(a: int, b: int)
    requires 0 <= a <= 9 && 0 <= b <= 9
    ensures 0 <= a * b <= 81
  {
    assert a * b <= 9 * b;
  }

  /** One digit times a string, with the carry put in front. */
  method MultiplyByDigit(n2: string, currentDigit: int) returns (temp: string)
    requires IsDigits(n2) && n2 != [] && 0 <= currentDigit <= 9
    ensures IsDigits(temp) && temp != [] && Num(temp) == Num(n2) * currentDigit
  {
    hide Scaled;
    hide Num;
    hide Pow10;
    temp := n2;
    var carry := 0;
    var j := |n2| - 1;
    ScaleStart(n2, currentDigit, temp);
    while j >= 0
      invariant -1 <= j < |n2| == |temp| && 0 <= carry <= 8
      invariant forall k :: 0 <= k <= j ==> temp[k] == n2[k]
      invariant forall k :: j < k < |n2| ==> '0' <= temp[k] <= '9'
      invariant Scaled(n2, currentDigit, temp, j + 1, carry)
    {
      DigitProduct(Dig(temp[j]), currentDigit);
      ghost var carryIn := carry;
      var product := Dig(temp[j]) * currentDigit + carry;
      if product > 9 {
        carry := product / 10;
        product := product - carry * 10;
      } else {
        carry := 0;
      }
      ScaleStep(n2, currentDigit, temp, j, carryIn, Chr(product), carry);
      temp := temp[j := Chr(product)];
      j := j - 1;
    }
    ScaleEnd(n2, currentDigit, temp, carry);
    if carry > 0 {
      temp := [Chr(carry)] + temp;
    }
  }

  /** The rows for the digits of n1 from i on sum up to this. */
  ghost predicate RowsSummed(n1: string, n2: string, i: nat, sum: int)
    requires i <= |n1|
  {
    sum == Num(n1[i..]) * Num(n2)
  }

  lemma RowsStart(n1: string, n2: string)
    ensures RowsSummed(n1, n2, |n1|, Num("0"))
  {
    assert n1[|n1|..] == [];
    assert "0"[..0] == [];
  }

  lemma RowsStep(n1: string, n2: string, i: nat, sum: int, row: string)
    requires i < |n1| && RowsSummed(n1, n2, i + 1, sum) && Num(row) == Num(n2) * Dig(n1[i])
    ensures RowsSummed(n1, n2, i, sum + Num(row + Zeros(|n1| - i - 1)))
  {
    hide Num;
    hide Pow10;
    NumSuffix(n1, i);
    NumZerosRight(row, |n1| - i - 1);
    ShiftedRow(Dig(n1[i]), Num(n1[i + 1..]), Num(n2), Pow10(|n1| - i - 1));
  }

  lemma RowsEnd(n1: string, n2: string, sum: int)
    requires RowsSummed(n1, n2, 0, sum)
    ensures sum == Num(n1) * Num(n2)
  {
    assert n1[0..] == n1;
  }

  lemma ShiftedRow(d: int, low: int, m: int, p: nat)
    ensures (d * p + low) * m == low * m + m * d * p
  {
    assert (d * p + low) * m == d * p * m + low * m;
    assert d * p * m == m * d * p;
  }

  /** Long multiplication: shifted products of the longer string, summed. */
  method Multiply(first: string, second: string) returns (res: string)
    requires IsDigits(first) && IsDigits(second) && first != [] && second != []
    ensures Canonical(res) && Num(res) == Num(first) * Num(second)
  {
    hide Pow10;
    hide Num;
    hide RowsSummed;
    var n1, n2 := first, second;
    if |n1| > |n2| {
      n1, n2 := n2, n1;
    }
    res := "0";
    var i := |n1| - 1;
    RowsStart(n1, n2);
    while i >= 0
      invariant -1 <= i < |n1|
      invariant IsDigits(res) && res != [] && RowsSummed(n1, n2, i + 1, Num(res))
    {
      var temp := MultiplyByDigit(n2, Dig(n1[i]));
      RowsStep(n1, n2, i, Num(res), temp);
      temp := temp + Zeros(|n1| - i - 1);
      res := Add(res, temp);
      i := i - 1;
    }
    RowsEnd(n1, n2, Num(res));
    res := StripZeros(res);
  }

  /** Largest divisor for which no intermediate remainder leaves the 64-bit range. */
  const DEN_MAX: int := LONG_LONG_MAX / 10

  /** A remainder with the next digit appended fits a 64-bit integer. */
  predicate StepFits(rem: int, d: int) { rem * 10 + d < 0x8000_0000_0000_0000 }

  /** Exactly up to that divisor does every remainder step of a division fit. */
  lemma RemainderFitsIff(den: int)
    requires den > 0
    ensures (forall rem, d :: 0 <= rem < den && 0 <= d <= 9 ==> StepFits(rem, d)) <==> den <= DEN_MAX
    ensures den <= DEN_MAX <==> den <= 922_337_203_685_477_580
  {
    if den > DEN_MAX {
      assert !StepFits(den - 1, 9);
    }
  }

  /** Long division by a machine integer. */
  method Divide(n: string, den: int) returns (result: string, rem: int)
    requires IsDigits(n) && |n| <= MAX && 0 < den <= DEN_MAX
    ensures Canonical(result) && Num(n) == Num(result) * den + rem && 0 <= rem < den
  {
    rem := 0;
    result := Zeros(MAX);
    for indx := 0 to |n|
      invariant |result| == MAX && IsDigits(result[..indx])
      invariant Num(n[..indx]) == Num(result[..indx]) * den + rem && 0 <= rem < den
    {
      ghost var before, oldRem := result[..indx], rem;
      rem := rem * 10 + Dig(n[indx]);
      assert StepFits(oldRem, Dig(n[indx]));
      QuotientDigit(rem, den);
      result := result[indx := Chr(rem / den)];
      assert result[..indx] == before;
      NumPrefix(n, indx);
      NumPrefix(result, indx);
      DivisionStep(Num(n[..indx]), Num(before), den, oldRem, Dig(n[indx]), rem / den, rem % den);
      rem := rem % den;
    }
    assert n[..|n|] == n;
    result := result[..|n|];
    if result == [] {
      result := "0";
    } else {
      result := StripZeros(result);
    }
  }

  lemma QuotientDigit(rem: int, den: int)
    requires den > 0 && 0 <= rem < 10 * den
    ensures 0 <= rem / den <= 9 && 0 <= rem % den < den && rem == rem / den * den + rem % den
  {
    var q := rem / den;
    assert q >= 10 ==> q * den >= 10 * den;
  }

  lemma DivisionStep(n: int, q: int, den: int, oldRem: int, d: int, digit: int, rem: int)
    requires n == q * den + oldRem && oldRem * 10 + d == digit * den + rem
    ensures 10 * n + d == (10 * q + digit) * den + rem
  {
    assert 10 * (q * den) == 10 * q * den;
  }

  // ------------------------------------------------------------- signed numbers

  /** `sign` is true for negative numbers. */
  datatype BigInteger = BigInteger(number: string, sign: bool) {
    /** Canonical digits and no negative zero. */
    predicate WellFormed() { Canonical(number) && (number == "0" ==> !sign) }

    function Value(): int { if sign then -Num(number) else Num(number) }

    function Absolute(): BigInteger { BigInteger(number, false) }
  }

  /** Equality, order and strict excess are decided on lengths, characters and signs. */
  predicate Equals(n1: BigInteger, n2: BigInteger) {
    n1.number == n2.number && n1.sign == n2.sign
  }

  predicate Less(n1: BigInteger, n2: BigInteger) {
    if n1.sign && !n2.sign then true
    else if !n1.sign && n2.sign then false
    else if !n1.sign then
      if |n1.number| < |n2.number| then true
      else if |n1.number| > |n2.number| then false
      else LexLess(n1.number, n2.number)
    else
      if |n1.number| > |n2.number| then true
      else if |n1.number| < |n2.number| then false
      else LexLess(n2.number, n1.number)
  }

  predicate Greater(n1: BigInteger, n2: BigInteger) { !Equals(n1, n2) && !Less(n1, n2) }

  lemma ZeroIsZero(s: string)
    requires Canonical(s)
    ensures Num(s) >= 0 && (Num(s) == 0 <==> s == "0")
  {
    NumBounds(s);
    if s[0] == '0' {
      assert s == "0" && s[..0] == [];
    } else {
      NumAtLeast(s);
      Pow10Positive(|s| - 1);
    }
  }

  /** Every comparison agrees with the integers. */
  lemma ComparisonsAgree(a: BigInteger, b: BigInteger)
    requires a.WellFormed() && b.WellFormed()
    ensures Equals(a, b) <==> a.Value() == b.Value()
    ensures Less(a, b) <==> a.Value() < b.Value()
    ensures Greater(a, b) <==> a.Value() > b.Value()
  {
    ZeroIsZero(a.number);
    ZeroIsZero(b.number);
    MagnitudesCompare(a.number, b.number);
    MagnitudesCompare(b.number, a.number);
  }

  lemma MagnitudesCompare(a: string, b: string)
    requires Canonical(a) && Canonical(b)
    ensures Num(a) < Num(b) <==> |a| < |b| || (|a| == |b| && LexLess(a, b))
    ensures a == b <==> Num(a) == Num(b)
  {
    if |a| < |b| {
      LongerIsLarger(a, b);
    } else if |b| < |a| {
      LongerIsLarger(b, a);
    } else {
      LexIsNumeric(a, b);
    }
  }

  /** The sum; the second operand may be a negative zero, which subtraction produces. */
  method Plus(a: BigInteger, b: BigInteger) returns (addition: BigInteger)
    requires a.WellFormed() && Canonical(b.number)
    ensures addition.WellFormed() && addition.Value() == a.Value() + b.Value()
  {
    hide Num;
    var number, sign;
    if a.sign == b.sign {
      number := Add(a.number, b.number);
      sign := a.sign;
    } else {
      ComparisonsAgree(a.Absolute(), b.Absolute());
      if Greater(a.Absolute(), b.Absolute()) {
        number := Subtract(a.number, b.number);
        sign := a.sign;
      } else {
        number := Subtract(b.number, a.number);
        sign := b.sign;
      }
    }
    ZeroIsZero(number);
    if number == "0" {
      sign := false;
    }
    addition := BigInteger(number, sign);
  }

  method Minus(a: BigInteger, b: BigInteger) returns (difference: BigInteger)
    requires a.WellFormed() && b.WellFormed()
    ensures difference.WellFormed() && difference.Value() == a.Value() - b.Value()
  {
    difference := Plus(a, b.(sign := !b.sign));
  }

  method Times(a: BigInteger, b: BigInteger) returns (mul: BigInteger)
    requires a.WellFormed() && b.WellFormed()
    ensures mul.WellFormed() && mul.Value() == a.Value() * b.Value()
  {
    hide Num;
    var number := Multiply(a.number, b.number);
    var sign := a.sign != b.sign;
    ZeroIsZero(number);
    SignOfProduct(Num(a.number), a.sign, Num(b.number), b.sign);
    if number == "0" {
      sign := false;
    }
    mul := BigInteger(number, sign);
  }

  lemma SignOfProduct(x: int, xs: bool, y: int, ys: bool)
    ensures (if xs then -x else x) * (if ys then -y else y) == if xs != ys then -(x * y) else x * y
  {
  }

  /** A digit string read as a machine integer. */
  method ToInt(s: string) returns (sum: int)
    requires IsDigits(s)
    ensures sum == Num(s)
  {
    sum := 0;
    for i := 0 to |s|
      invariant sum == Num(s[..i])
    {
      NumPrefix(s, i);
      sum := sum * 10 + Dig(s[i]);
    }
    assert s[..|s|] == s;
  }

  /** The decimal form of a machine integer that is not negative. */
  function ToString(n: nat): (s: string)
    ensures Canonical(s) && Num(s) == n
    decreases n
  {
    if n < 10 then
      NumPrefix([Chr(n)], 0);
      assert [Chr(n)][..0] == [] && [Chr(n)][..1] == [Chr(n)];
      [Chr(n)]
    else
      var front := ToString(n / 10);
      var s := front + [Chr(n % 10)];
      assert s[..|s| - 1] == front;
      ZeroIsZero(front);
      s
  }

  /** What division yields: the quotient of the magnitudes with the product's sign. */
  function SignedQuotient(x: int, y: int): int
    requires y != 0
  {
    var q := Abs(x) / Abs(y);
    if (x < 0) != (y < 0) then -q else q
  }

  /** What the remainder operator yields: its sign is that of the quotient, not of the dividend. */
  function SignedRemainder(x: int, y: int): int
    requires y != 0
  {
    var r := Abs(x) % Abs(y);
    if (x < 0) != (y < 0) then -r else r
  }

  function Abs(x: int): nat { if x < 0 then -x else x }

  method DividedBy(a: BigInteger, b: BigInteger) returns (div: BigInteger)
    requires a.WellFormed() && b.WellFormed() && |a.number| <= MAX && 0 < Num(b.number) <= DEN_MAX
    ensures div.WellFormed() && div.Value() == SignedQuotient(a.Value(), b.Value())
  {
    var den := ToInt(b.number);
    var number, rem := Divide(a.number, den);
    ZeroIsZero(a.number);
    ZeroIsZero(number);
    QuotientUnique(Num(a.number), den, Num(number), rem);
    var sign := a.sign != b.sign;
    if number == "0" {
      sign := false;
    }
    div := BigInteger(number, sign);
  }

  method Modulo(a: BigInteger, b: BigInteger) returns (remainder: BigInteger)
    requires a.WellFormed() && b.WellFormed() && |a.number| <= MAX && 0 < Num(b.number) <= DEN_MAX
    ensures remainder.WellFormed() && remainder.Value() == SignedRemainder(a.Value(), b.Value())
  {
    var den := ToInt(b.number);
    var number, rem := Divide(a.number, den);
    ZeroIsZero(a.number);
    QuotientUnique(Num(a.number), den, Num(number), rem);
    var text := ToString(rem);
    ZeroIsZero(text);
    var sign := a.sign != b.sign;
    if text == "0" {
      sign := false;
    }
    remainder := BigInteger(text, sign);
  }

  lemma QuotientUnique(n: nat, den: int, q: int, r: int)
    requires den > 0 && n == q * den + r && 0 <= r < den
    ensures n / den == q && n % den == r
  {
    var q', r' := n / den, n % den;
    assert n == den * q' + r';
    if q < q' { NextMultiple(q, q', den); }
    if q' < q { NextMultiple(q', q, den); }
  }

  lemma NextMultiple(q: int, q': int, den: int)
    requires den > 0 && q < q'
    ensures q * den + den <= q' * den
  {
    assert (q' - q - 1) * den >= 0;
    assert (q' - q - 1) * den == q' * den - q * den - den;
  }

  /** a = (a / b) * b + a % b holds exactly when b is positive or divides a. */
  lemma DivisionLawIff(x: int, y: int)
    requires y != 0
    ensures x == SignedQuotient(x, y) * y + SignedRemainder(x, y) <==> y > 0 || Abs(x) % Abs(y) == 0
  {
    var q, r := Abs(x) / Abs(y), Abs(x) % Abs(y);
    assert Abs(x) == Abs(y) * q + r;
    if (x < 0) != (y < 0) {
      assert -q * y == -(q * y);
    }
  }
}
