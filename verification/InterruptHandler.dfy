/** The interrupt controller: two masked lines and a global enable. */
module InterruptHandler {
  import opened Words
  import opened Isa
  import opened Digits

  /** Bits 15 to 8 of Status mask lines 7 to 0; the timer is line 7 and the serial port line 4. */
  predicate TimerMasked(c0: C0File, timer: bool) { timer && (c0[STATUS] / 0x8000) % 2 == 1 }

  predicate UartMasked(c0: C0File, uart: bool) { uart && (c0[STATUS] / 0x1000) % 2 == 1 }

  predicate Raised(c0: C0File, timer: bool, uart: bool)
  {
    InterruptsEnabled(c0) && (TimerMasked(c0, timer) || UartMasked(c0, uart))
  }

  function Numbers(c0: C0File, timer: bool, uart: bool): nat
  {
    (if TimerMasked(c0, timer) then 0x80 else 0) + (if UartMasked(c0, uart) then 0x10 else 0)
  }

  // ----- the lines in numbers

  /** Status is coprocessor register 12. An interrupt is raised when its bit 0 is set and bit 1 clear, and
      the timer is on with bit 15 set or the serial port with bit 12. The timer is reported in bit 7 of the
      numbers, the serial port in bit 4. */
  lemma LinesMean(c0: C0File, timer: bool, uart: bool)
    ensures Raised(c0, timer, uart) <==>
              Digit(c0[12], 0) && !Digit(c0[12], 1) && ((timer && Digit(c0[12], 15)) || (uart && Digit(c0[12], 12)))
    ensures forall k: nat | k < 8 ::
              Digit(Numbers(c0, timer, uart), k)
              == ((k == 7 && timer && Digit(c0[12], 15)) || (k == 4 && uart && Digit(c0[12], 12)))
  {
    StatusDigits(c0[12]);
    NumberDigits(timer && Digit(c0[12], 15), uart && Digit(c0[12], 12), Numbers(c0, timer, uart));
    hide Digit;
  }

  lemma StatusDigits(w: Word)
    ensures Digit(w, 0) == (w % 2 == 1) && Digit(w, 1) == (w / 2 % 2 == 1)
    ensures Digit(w, 15) == (w / 0x8000 % 2 == 1) && Digit(w, 12) == (w / 0x1000 % 2 == 1)
  {
    hide Digit, Pow2;
    Powers();
    DigitAt(w, 0, 1);
    DigitAt(w, 1, 2);
    DigitAt(w, 12, 0x1000);
    DigitAt(w, 15, 0x8000);
  }

  lemma Powers()
    ensures Pow2(0) == 1 && Pow2(1) == 2 && Pow2(12) == 0x1000 && Pow2(15) == 0x8000
  {
    Pow2Word();
    Pow2Sum(8, 4);
    assert Pow2(8) == 0x100 && Pow2(4) == 16;
  }

  lemma DigitAt(w: Word, n: nat, scale: nat)
    requires Pow2(n) == scale
    ensures Digit(w, n) == (w / scale % 2 == 1)
  {
    QuotientDigit(w, n, 0);
  }

  lemma NumberDigits(timer: bool, uart: bool, n: nat)
    requires n == (if timer then 0x80 else 0) + (if uart then 0x10 else 0)
    ensures forall k: nat | k < 8 :: Digit(n, k) == ((k == 7 && timer) || (k == 4 && uart))
  {
    assert Pow2(3) == 8 && Pow2(4) == 16;
    forall k: nat | k < 8
      ensures Digit(n, k) == ((k == 7 && timer) || (k == 4 && uart))
    {
      var x := (if timer then 8 else 0) + if uart then 1 else 0;
      ScaledDigit(x, 4, k);
      SmallDigits(timer, uart);
    }
  }

  lemma SmallDigits(timer: bool, uart: bool)
    ensures var x := (if timer then 8 else 0) + if uart then 1 else 0;
            Digit(x, 0) == uart && !Digit(x, 1) && !Digit(x, 2) && Digit(x, 3) == timer
  {
    var x := (if timer then 8 else 0) + if uart then 1 else 0;
    assert Digit(x, 0) == (x % 2 == 1);
    assert Digit(x, 1) == Digit(x / 2, 0);
    assert Digit(x, 2) == Digit(x / 2, 1) == Digit(x / 4, 0);
    assert Digit(x, 3) == Digit(x / 2, 2) == Digit(x / 4, 1) == Digit(x / 8, 0);
  }
}
