/**
 Message identifiers of the outbox: a clock reading, the source and a counter,
 joined by dashes.  The counter is printed by a hand-written routine over a
 20-byte buffer, and everything that the outbox promises per message rests on
 two messages never sharing an identifier.
 */
module MessageIds {
  import opened Sequences
  import opened Text

  const MAX_INT64: int := 0x7FFF_FFFF_FFFF_FFFF
  const MIN_INT64: int := -0x8000_0000_0000_0000

  type int64 = x: int | MIN_INT64 <= x <= MAX_INT64

  const BUFFER_SIZE: nat := 20

  function Digit(d: nat): char
    requires d < 10
  {
    ('0' as int + d) as char
  }

  /** Ordinary decimal notation. */
  function Decimal(n: nat): (s: string)
    ensures s != "" && AllDigits(s)
  {
    if n < 10 then [Digit(n)] else Decimal(n / 10) + [Digit(n % 10)]
  }

  function Pow10(k: nat): nat {
    if k == 0 then 1 else 10 * Pow10(k - 1)
  }

  /** What the printing routine returns on every 64-bit input. */
  function Printed(id: int64): string {
    if id < 0 then "" else Decimal(id)
  }

  /** The digits of `n` without the lone zero. */
  function Significant(n: nat): string {
    if n == 0 then "" else Significant(n / 10) + [Digit(n % 10)]
  }

  lemma {:induction false} SignificantIsDecimal(n: nat)
    requires n > 0
    ensures Significant(n) == Decimal(n)
  {
    if n >= 10 {
      SignificantIsDecimal(n / 10);
    } else {
      assert Significant(n / 10) == "";
    }
  }

  lemma NoDigits(rest: nat)
    requires rest == 0
    ensures Significant(rest) == ""
  {}

  const DIGITS := "0123456789"

  lemma DigitAt(d: nat)
    requires d < 10
    ensures DIGITS[d] == Digit(d)
  {}

  /** One turn of the loop moves the last digit of `rest` into the buffer. */
  lemma SignificantStep(rest: nat, tail: string)
    requires rest > 0
    ensures DIGITS[rest % 10] == Digit(rest % 10)
    ensures Significant(rest / 10) + ([DIGITS[rest % 10]] + tail) == Significant(rest) + tail
  {
    DigitAt(rest % 10);
    Assoc(Significant(rest / 10), [Digit(rest % 10)], tail);
  }

  /** One digit less fits in one place less. */
  lemma FitsShorter(rest: nat, k: nat)
    requires 0 < rest < Pow10(k)
    ensures k > 0 && rest / 10 < Pow10(k - 1)
  {}

  lemma Int64FitsBuffer()
    ensures MAX_INT64 < Pow10(BUFFER_SIZE)
  {
    assert Pow10(4) == 10000;
    assert Pow10(8) == 1_0000_0000;
    assert Pow10(12) == 1_0000_0000_0000;
    assert Pow10(16) == 1_0000_0000_0000_0000;
  }

  /** What is written of a positive `id` ends it, and `rest` holds the digits in front. */
  predicate Unwritten(id: int, rest: int, tail: string) {
    id > 0 ==> rest >= 0 && Significant(rest) + tail == Significant(id)
  }

  lemma UnwrittenNext(id: int, rest: int, buf: string, i: nat)
    requires rest > 0 && i < |buf| && Unwritten(id, rest, buf[i + 1..])
    ensures Unwritten(id, rest / 10, buf[i := DIGITS[rest % 10]][i..])
  {
    SignificantStep(rest, buf[i + 1..]);
    assert buf[i := DIGITS[rest % 10]][i..] == [DIGITS[rest % 10]] + buf[i + 1..];
  }

  lemma AllWritten(id: int64, rest: int, tail: string)
    requires id != 0 && rest <= 0 && Unwritten(id, rest, tail) && (id < 0 ==> tail == "")
    ensures tail == Printed(id)
  {
    if id > 0 {
      SignificantIsDecimal(id);
      NoDigits(rest);
    }
  }

  /** Fills the buffer from its end; the buffer is long enough for every 64-bit value. */
  method StringId(id: int64) returns (s: string)
    ensures s == Printed(id)
  {
    if id == 0 {
      return "0";
    }
    var buf := new char[BUFFER_SIZE];
    var i: nat := buf.Length;
    var rest: int := id;
    Int64FitsBuffer();
    assert Unwritten(id, rest, buf[..][i..]);
    hide Pow10, Significant, Decimal, Digit, Unwritten, Printed;
    while rest > 0
      invariant 0 <= i <= buf.Length
      invariant rest < Pow10(i)
      invariant id < 0 ==> rest == id && i == buf.Length
      invariant Unwritten(id, rest, buf[..][i..])
    {
      FitsShorter(rest, i);
      i := i - 1;
      ghost var before := buf[..];
      buf[i] := DIGITS[rest % 10];
      assert buf[..] == before[i := DIGITS[rest % 10]];
      UnwrittenNext(id, rest, before, i);
      rest := rest / 10;
    }
    AllWritten(id, rest, buf[..][i..]);
    s := buf[i..];
    assert s == buf[..][i..];
  }

  /** Reads the number behind the last dash of `id`, digit by digit. */
  function CounterOf(id: string): int {
    if id == "" || id[|id| - 1] == '-' then 0
    else 10 * CounterOf(id[..|id| - 1]) + (id[|id| - 1] as int - '0' as int)
  }

  function MessageId(stamp: string, source: string, n: int64): string {
    stamp + "-" + Trim(source) + "-" + Printed(n)
  }

  lemma {:induction false} DecimalReadBack(front: string, n: nat)
    ensures CounterOf(front + "-" + Decimal(n)) == n
  {
    var id := front + "-" + Decimal(n);
    if n < 10 {
      assert id[..|id| - 1] == front + "-";
      assert CounterOf(front + "-") == 0;
    } else {
      assert id[..|id| - 1] == front + "-" + Decimal(n / 10);
      DecimalReadBack(front, n / 10);
    }
  }

  /** The counter can be read back from an identifier, whatever the clock and the source were. */
  lemma CounterReadBack(stamp: string, source: string, n: int64)
    requires n >= 0
    ensures CounterOf(MessageId(stamp, source, n)) == n
  {
    DecimalReadBack(stamp + "-" + Trim(source), n);
  }

  /**
   Printing is injective exactly on the non-negative counters: every negative
   one prints as the empty string.
   */
  lemma PrintedInjectiveIff(a: int64, b: int64)
    ensures Printed(a) == Printed(b) <==> a == b || (a < 0 && b < 0)
  {
    if a >= 0 { DecimalReadBack("", a); }
    if b >= 0 { DecimalReadBack("", b); }
  }
}
