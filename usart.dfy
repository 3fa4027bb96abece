/** `USART_Init`: the UART divisor computed from the baud rate, and the register writes that set
    up USART1. Register bit positions are those of the ATmega32U4 that the firmware targets. */
module Usart {

  /** `unsigned long` is 32 bits wide on AVR, `unsigned int` 16 bits. */
  const ULONG_MODULUS: nat := 0x1_0000_0000
  const UINT_MODULUS: nat := 0x1_0000

  /** Bit numbers within UCSR1A, UCSR1B and UCSR1C. */
  const U2X1: nat := 1
  const RXEN1: nat := 4
  const RXCIE1: nat := 7
  const UCSZ10: nat := 1

  /** A value of the 16-bit baud-rate register. */
  type Word = x: nat | x < UINT_MODULUS

  /** The four USART1 registers `USART_Init` writes. UBRR1 is the 16-bit baud-rate register. */
  datatype UsartRegisters = UsartRegisters(ubrr1: Word, ucsr1a: bv8, ucsr1b: bv8, ucsr1c: bv8)

  /** Whether a call with this baud rate divides by a nonzero value: `16 * baud` is computed in
      32-bit unsigned arithmetic, so it must not be 0 after wrapping. */
  predicate DivisorDefined(fcpu: nat, baud: nat)
  {
    fcpu < ULONG_MODULUS && baud < ULONG_MODULUS && (16 * baud) % ULONG_MODULUS != 0
  }

  /** `(F_CPU + (16 * baud) / 2) / (16 * baud) - 1`, evaluated in 32-bit unsigned arithmetic and
      stored in a 16-bit `unsigned int`. */
  function BaudDivisor(fcpu: nat, baud: nat): (ubrr: nat)
    requires DivisorDefined(fcpu, baud)
    ensures ubrr < UINT_MODULUS
  {
    var d := (16 * baud) % ULONG_MODULUS;
    var q := ((fcpu + d / 2) % ULONG_MODULUS) / d;
    ((q - 1) % ULONG_MODULUS) % UINT_MODULUS
  }

  lemma MulMonotone(a: int, b: int, d: int)
    requires d >= 0
    ensures a <= b ==> a * d <= b * d
  {
    if a <= b {
      var e := b - a;
      assert b * d == a * d + e * d;
    }
  }

  lemma DivisionBounds(n: nat, d: nat, q: nat)
    requires d > 0 && q * d <= n < q * d + d
    ensures n / d == q
  {
    var p := n / d;
    assert n == p * d + n % d;
    MulMonotone(p, q - 1, d);
    MulMonotone(q + 1, p, d);
    assert (q - 1) * d == q * d - d;
    assert (q + 1) * d == q * d + d;
  }

  /** The unsigned `q - 1` stored in an `unsigned int`, for a quotient that fits in 16 bits. */
  lemma PredecessorWraps(q: int)
    requires 0 <= q <= UINT_MODULUS
    ensures ((q - 1) % ULONG_MODULUS) % UINT_MODULUS == if q == 0 then UINT_MODULUS - 1 else q - 1
  {
  }

  /** Without overflow in `16 * baud` or in the rounding sum, the divisor is the unsigned `q - 1`
      of the quotient `q` of the rounding division. */
  lemma BaudDivisorFromQuotient(fcpu: nat, baud: nat, q: nat)
    requires 0 < baud && 16 * baud < ULONG_MODULUS && fcpu + 8 * baud < ULONG_MODULUS
    requires q * (16 * baud) <= fcpu + 8 * baud < q * (16 * baud) + 16 * baud
    requires q <= UINT_MODULUS
    ensures DivisorDefined(fcpu, baud)
    ensures BaudDivisor(fcpu, baud) == if q == 0 then UINT_MODULUS - 1 else q - 1
  {
    var d := (16 * baud) % ULONG_MODULUS;
    assert d == 16 * baud;
    var n := (fcpu + d / 2) % ULONG_MODULUS;
    assert n == fcpu + 8 * baud;
    DivisionBounds(n, d, q);
    PredecessorWraps(q);
  }

  /** When nothing overflows and the rate is not too high for the clock, the divisor plus one is
      F_CPU / (16 * baud) rounded to the nearest integer, halves rounding up. */
  lemma DivisorRoundsToNearest(fcpu: nat, baud: nat)
    requires 0 < baud && 16 * baud < ULONG_MODULUS && fcpu + 8 * baud < ULONG_MODULUS
    requires 8 * baud <= fcpu && fcpu + 8 * baud < 16 * baud * (UINT_MODULUS + 1)
    ensures DivisorDefined(fcpu, baud)
    ensures 16 * baud * (BaudDivisor(fcpu, baud) + 1) <= fcpu + 8 * baud
    ensures fcpu + 8 * baud < 16 * baud * (BaudDivisor(fcpu, baud) + 2)
  {
    var d := 16 * baud;
    var n := fcpu + 8 * baud;
    var q := n / d;
    assert q * d <= n < q * d + d by {
      assert n == q * d + n % d;
    }
    MulMonotone(q, 0, d);
    MulMonotone(UINT_MODULUS + 1, q, d);
    BaudDivisorFromQuotient(fcpu, baud, q);
    assert 16 * baud * q == q * d;
    assert 16 * baud * (q + 1) == q * d + d;
  }

  /** When F_CPU is below 8 * baud the quotient is 0, and the unsigned `- 1` wraps: the divisor
      becomes 0xFFFF. */
  lemma DivisorWrapsWhenClockTooSlow(fcpu: nat, baud: nat)
    requires 0 < baud && 16 * baud < ULONG_MODULUS && fcpu < 8 * baud
    ensures DivisorDefined(fcpu, baud)
    ensures BaudDivisor(fcpu, baud) == UINT_MODULUS - 1
  {
    BaudDivisorFromQuotient(fcpu, baud, 0);
  }

  /** `USART_Init(baud)` as written, from the registers' values `regs` before the call. UBRR1 is
      written twice, so only the low byte of the divisor remains; U2X1 is set in UCSR1A and the
      other bits kept; the receive-interrupt enable set by `|=` is then overwritten by the plain
      assignment that enables the receiver; UCSR1C selects 8-bit characters. */
  method UsartInit(regs: UsartRegisters, fcpu: nat, baud: nat) returns (r: UsartRegisters)
    requires DivisorDefined(fcpu, baud)
    ensures r.ubrr1 == BaudDivisor(fcpu, baud) % 256
    ensures BaudDivisor(fcpu, baud) >= 256 ==> r.ubrr1 != BaudDivisor(fcpu, baud)
    ensures r.ucsr1a & (1 << U2X1) != 0 && r.ucsr1a & !(1 << U2X1) == regs.ucsr1a & !(1 << U2X1)
    ensures r.ucsr1b == 1 << RXEN1
    ensures r.ucsr1b & (1 << RXCIE1) == 0
    ensures r.ucsr1c == 3 << UCSZ10
  {
    var ubrr := BaudDivisor(fcpu, baud);
    r := regs;
    r := r.(ubrr1 := (ubrr / 256) % 256);
    r := r.(ubrr1 := ubrr % 256);
    r := r.(ucsr1a := r.ucsr1a | (1 << U2X1));
    r := r.(ucsr1b := r.ucsr1b | (1 << RXCIE1));
    r := r.(ucsr1b := 1 << RXEN1);
    r := r.(ucsr1c := 3 << UCSZ10);
  }

  /** The serial line rate the hardware produces from a divisor: F_CPU / (16 (UBRR + 1)), or
      F_CPU / (8 (UBRR + 1)) in double-speed mode (U2X1 set), rounded down. */
  function LineRate(fcpu: nat, ubrr: nat, doubleSpeed: bool): nat
  {
    fcpu / ((if doubleSpeed then 8 else 16) * (ubrr + 1))
  }

  /** The divisor that matches double-speed mode: F_CPU / (8 * baud) rounded to nearest, minus 1. */
  function DoubleSpeedDivisor(fcpu: nat, baud: nat): (ubrr: nat)
    requires 0 < baud && 8 * baud <= fcpu
    ensures 8 * baud * (ubrr + 1) <= fcpu + 4 * baud < 8 * baud * (ubrr + 2)
  {
    var d := 8 * baud;
    var n := fcpu + 4 * baud;
    var q := n / d;
    assert n == q * d + n % d;
    MulMonotone(q, 0, d);
    assert 8 * baud * q == q * d;
    assert 8 * baud * (q + 1) == q * d + d;
    q - 1
  }

  /** With an exact clock (F_CPU = 16 * baud * k) and k at most 256, the as-written divisor is
      k - 1 and fits in the low byte that UBRR1 keeps; in the double-speed mode `USART_Init` also
      selects, the line then runs at twice the requested rate. */
  lemma AsWrittenRunsAtTwiceTheRate(baud: nat, k: nat)
    requires 0 < baud && 0 < k <= 256
    requires 16 * baud * k + 16 * baud < ULONG_MODULUS
    ensures DivisorDefined(16 * baud * k, baud)
    ensures BaudDivisor(16 * baud * k, baud) == k - 1
    ensures BaudDivisor(16 * baud * k, baud) % 256 == k - 1
    ensures LineRate(16 * baud * k, BaudDivisor(16 * baud * k, baud) % 256, true) == 2 * baud
  {
    var fcpu := 16 * baud * k;
    ExactClockProducts(baud, k);
    BaudDivisorFromQuotient(fcpu, baud, k);
    assert BaudDivisor(fcpu, baud) % 256 == k - 1;
    DoubleSpeedRateOfDivisor(fcpu, 2 * baud, k);
  }

  /** A clock of exactly 8 * rate * k with divisor k - 1 gives `rate` in double-speed mode. */
  lemma DoubleSpeedRateOfDivisor(fcpu: nat, rate: nat, k: nat)
    requires 0 < k && fcpu == rate * (8 * k)
    ensures LineRate(fcpu, k - 1, true) == rate
  {
    DivisionBounds(fcpu, 8 * k, rate);
  }

  /** The ways the exact clock 16 * baud * k factors. */
  lemma ExactClockProducts(baud: nat, k: nat)
    ensures k * (16 * baud) == 16 * baud * k
    ensures (2 * baud) * (8 * k) == 16 * baud * k
  {
  }

  /** With the same exact clock, the divisor computed for double-speed mode is 2k - 1 and gives
      the requested rate. */
  lemma DoubleSpeedDivisorGivesTheRate(baud: nat, k: nat)
    requires 0 < baud && 0 < k
    ensures 8 * baud <= 16 * baud * k
    ensures DoubleSpeedDivisor(16 * baud * k, baud) == 2 * k - 1
    ensures LineRate(16 * baud * k, DoubleSpeedDivisor(16 * baud * k, baud), true) == baud
  {
    var fcpu := 16 * baud * k;
    var d := 8 * baud;
    assert (2 * k) * d == fcpu;
    MulMonotone(1, 2 * k, d);
    DivisionBounds(fcpu + 4 * baud, d, 2 * k);
    var m := 16 * k;
    assert baud * m == fcpu;
    DivisionBounds(fcpu, m, baud);
    assert 8 * (2 * k - 1 + 1) == m;
  }

  /** The intended `USART_Init`: the whole divisor in UBRR1, the divisor that matches the
      double-speed mode selected in UCSR1A, and both the receiver and its receive-complete
      interrupt enabled in UCSR1B. */
  method UsartInitIntended(regs: UsartRegisters, fcpu: nat, baud: nat) returns (r: UsartRegisters)
    requires 0 < baud && 8 * baud <= fcpu && fcpu + 4 * baud < 8 * baud * (UINT_MODULUS + 1)
    ensures r.ubrr1 == DoubleSpeedDivisor(fcpu, baud)
    ensures r.ucsr1a & (1 << U2X1) != 0 && r.ucsr1a & !(1 << U2X1) == regs.ucsr1a & !(1 << U2X1)
    ensures r.ucsr1b & (1 << RXEN1) != 0 && r.ucsr1b & (1 << RXCIE1) != 0
    ensures r.ucsr1c == 3 << UCSZ10
  {
    var ubrr := DoubleSpeedDivisor(fcpu, baud);
    MulMonotone(UINT_MODULUS + 1, ubrr + 1, 8 * baud);
    r := regs;
    r := r.(ubrr1 := ubrr);
    r := r.(ucsr1a := r.ucsr1a | (1 << U2X1));
    r := r.(ucsr1b := (1 << RXCIE1) | (1 << RXEN1));
    r := r.(ucsr1c := 3 << UCSZ10);
  }
}
