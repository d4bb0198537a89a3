/** An immutable transfer record and the canonical text it is hashed by. */
module Transactions {

  /** sender pays receiver `amount` and offers `fee` to the block builder.
      Java's `getFee()` is the field `fee`; there are no mutators. */
  datatype Transaction = Transaction(sender: string, receiver: string, amount: int, fee: int)

  predicate IsDigit(c: char)
  {
    '0' <= c <= '9'
  }

  predicate AllDigits(s: string)
  {
    forall i :: 0 <= i < |s| ==> IsDigit(s[i])
  }

  function DecimalDigit(d: nat): (c: char)
    requires d < 10
    ensures IsDigit(c)
  {
    ('0' as int + d) as char
  }

  function DigitValue(c: char): (d: nat)
    requires IsDigit(c)
    ensures d < 10 && DecimalDigit(d) == c
  {
    c as int - '0' as int
  }

  /** Base-10 digits of n, most significant first, without leading zeros. */
  function NatToDecimal(n: nat): (s: string)
    ensures |s| >= 1 && AllDigits(s)
  {
    if n < 10 then [DecimalDigit(n)] else NatToDecimal(n / 10) + [DecimalDigit(n % 10)]
  }

  /** What `%d` prints for an int: a minus sign for a negative value, then its digits. */
  function IntToDecimal(n: int): string
  {
    if n < 0 then "-" + NatToDecimal(-n) else NatToDecimal(n)
  }

  /** The value of a string of digits. */
  function DecimalValue(s: string): nat
    requires AllDigits(s)
  {
    if s == [] then 0 else 10 * DecimalValue(s[..|s| - 1]) + DigitValue(s[|s| - 1])
  }

  /** An optional minus sign followed by at least one digit. */
  predicate IsDecimal(s: string)
  {
    if |s| >= 1 && s[0] == '-' then |s| >= 2 && AllDigits(s[1..]) else |s| >= 1 && AllDigits(s)
  }

  /** Reads back what IntToDecimal prints. */
  function ParseDecimal(s: string): int
    requires IsDecimal(s)
  {
    if s[0] == '-' then -(DecimalValue(s[1..]) as int) else DecimalValue(s)
  }

  lemma {:induction false} NatToDecimalRoundTrip(n: nat)
    ensures DecimalValue(NatToDecimal(n)) == n
  {
    var s := NatToDecimal(n);
    if n < 10 {
      assert s[..|s| - 1] == [];
    } else {
      NatToDecimalRoundTrip(n / 10);
      assert s[..|s| - 1] == NatToDecimal(n / 10);
    }
  }

  /** Printing an int in decimal loses nothing. */
  lemma {:induction false} DecimalRoundTrip(n: int)
    ensures IsDecimal(IntToDecimal(n)) && ParseDecimal(IntToDecimal(n)) == n
  {
    if n < 0 {
      NatToDecimalRoundTrip(-n);
      assert IntToDecimal(n)[1..] == NatToDecimal(-n);
    } else {
      NatToDecimalRoundTrip(n);
    }
  }

  predicate NoSpace(s: string)
  {
    forall i :: 0 <= i < |s| ==> s[i] != ' '
  }

  lemma DecimalHasNoSpace(n: int)
    ensures NoSpace(IntToDecimal(n))
  {
  }

  function SpaceCount(s: string): nat
  {
    if s == [] then 0 else SpaceCount(s[..|s| - 1]) + (if s[|s| - 1] == ' ' then 1 else 0)
  }

  lemma {:induction false} SpaceCountAppend(a: string, b: string)
    ensures SpaceCount(a + b) == SpaceCount(a) + SpaceCount(b)
  {
    if b != [] {
      assert (a + b)[..|a + b| - 1] == a + b[..|b| - 1];
      SpaceCountAppend(a, b[..|b| - 1]);
    } else {
      assert a + b == a;
    }
  }

  lemma {:induction false} NoSpaceCount(s: string)
    requires NoSpace(s)
    ensures SpaceCount(s) == 0
  {
    if s != [] {
      NoSpaceCount(s[..|s| - 1]);
    }
  }

  /** The canonical leaf preimage: the four fields, space separated, in the
      layout `"%s %s %d %d"`. */
  function ToString(t: Transaction): string
  {
    t.sender + " " + (t.receiver + " " + (IntToDecimal(t.amount) + " " + IntToDecimal(t.fee)))
  }

  lemma SpaceCountAroundSpace(x: string, y: string)
    ensures SpaceCount(x + " " + y) == SpaceCount(x) + 1 + SpaceCount(y)
  {
    SpaceCountAppend(x, " ");
    SpaceCountAppend(x + " ", y);
    assert SpaceCount(" ") == 1 by {
      assert " "[..0] == [];
    }
  }

  /** The canonical text always holds at least the three separating spaces. */
  lemma ToStringHasThreeSpaces(t: Transaction)
    ensures SpaceCount(ToString(t)) >= 3
  {
    var c, d := IntToDecimal(t.amount), IntToDecimal(t.fee);
    SpaceCountAroundSpace(c, d);
    SpaceCountAroundSpace(t.receiver, c + " " + d);
    SpaceCountAroundSpace(t.sender, t.receiver + " " + (c + " " + d));
  }

  /** No transaction's canonical text is the padding preimage "DUMMY". */
  lemma ToStringIsNotDummy(t: Transaction)
    ensures ToString(t) != "DUMMY"
  {
    ToStringHasThreeSpaces(t);
    NoSpaceCount("DUMMY");
  }

  /** Two space-free words followed by a space split the same way. */
  lemma SplitAtSpace(x: string, r1: string, y: string, r2: string)
    requires NoSpace(x) && NoSpace(y)
    requires x + " " + r1 == y + " " + r2
    ensures x == y && r1 == r2
  {
    var s := x + " " + r1;
    assert s[|x|] == ' ' && s[|y|] == ' ';
    assert |x| == |y|;
    assert x == s[..|x|] == y;
    assert r1 == s[|x| + 1..] == r2;
  }

  /** When the parties' names hold no space, the canonical text determines the
      transaction: equal leaf preimages mean equal transactions. */
  lemma ToStringInjective(a: Transaction, b: Transaction)
    requires NoSpace(a.sender) && NoSpace(a.receiver)
    requires NoSpace(b.sender) && NoSpace(b.receiver)
    requires ToString(a) == ToString(b)
    ensures a == b
  {
    var na := IntToDecimal(a.amount) + " " + IntToDecimal(a.fee);
    var nb := IntToDecimal(b.amount) + " " + IntToDecimal(b.fee);
    SplitAtSpace(a.sender, a.receiver + " " + na, b.sender, b.receiver + " " + nb);
    SplitAtSpace(a.receiver, na, b.receiver, nb);
    NumbersInjective(a.amount, a.fee, b.amount, b.fee);
  }

  /** The two numbers at the end of the text are read back unambiguously. */
  lemma NumbersInjective(amount1: int, fee1: int, amount2: int, fee2: int)
    requires IntToDecimal(amount1) + " " + IntToDecimal(fee1) == IntToDecimal(amount2) + " " + IntToDecimal(fee2)
    ensures amount1 == amount2 && fee1 == fee2
  {
    DecimalHasNoSpace(amount1);
    DecimalHasNoSpace(amount2);
    SplitAtSpace(IntToDecimal(amount1), IntToDecimal(fee1), IntToDecimal(amount2), IntToDecimal(fee2));
    DecimalRoundTrip(amount1);
    DecimalRoundTrip(amount2);
    DecimalRoundTrip(fee1);
    DecimalRoundTrip(fee2);
  }

  /** Java's `compareTo`: the sign of the fee difference, nothing else. */
  function CompareTo(a: Transaction, b: Transaction): (r: int)
    ensures r == 1 <==> a.fee > b.fee
    ensures r == -1 <==> a.fee < b.fee
    ensures r == 0 <==> a.fee == b.fee
  {
    if a.fee > b.fee then 1 else if a.fee < b.fee then -1 else 0
  }

  lemma CompareToAntisymmetric(a: Transaction, b: Transaction)
    ensures CompareTo(a, b) == -CompareTo(b, a)
  {
  }

  /** Sender, receiver and amount play no part in the comparison. */
  lemma CompareToOnlyFee(a: Transaction, b: Transaction, c: Transaction, d: Transaction)
    requires a.fee == c.fee && b.fee == d.fee
    ensures CompareTo(a, b) == CompareTo(c, d)
  {
  }
}
