/**
 * Audio rate parameters (Software/apps/spydvi/main.c:82-148).
 *
 * set_audio_dvi_parameters picks the HDMI audio clock regeneration pair
 * (CTS, N), which must satisfy 128 * fs = f_TMDS * N / CTS (section 7.2 of
 * the HDMI 1.4 specification) with the 25.2 MHz TMDS character clock of the
 * 640x480 mode.  set_audio_sampling_parameters picks the DMA pacing timer
 * fraction numerator/denominator of the 252 MHz system clock.  Both end in a
 * call into the DVI or DMA library, which is not part of this model: the
 * functions here return the values that would be passed.
 *
 * The sample rate is the 32-bit configuration word, so it is a U32 here.
 */
module Audio {

  const TwoTo32: nat := 0x1_0000_0000
  const TwoTo16: nat := 0x1_0000

  type U32 = x: nat | x < 0x1_0000_0000

  /** The TMDS character clock of the 640x480p60 mode. */
  const TmdsClockHz: nat := 25_200_000
  /** The RP2040 system clock (10 x TMDS). */
  const SysClockHz: nat := 252_000_000

  /** The rates the switch statements list. */
  predicate IsTableRate(rate: nat)
  {
    rate == 96000 || rate == 48000 || rate == 44100 || rate == 32000
  }

  /** Arguments of dvi_set_audio_freq / dvi_update_audio_freq after the sample rate. */
  datatype ClockRegen = ClockRegen(cts: nat, n: nat)

  /** Arguments of dma_timer_set_fraction after the timer number. */
  datatype TimerFraction = TimerFraction(numerator: nat, denominator: nat)

  /** A uint32_t result: the value modulo 2^32. */
  function Wrap32(x: nat): (r: U32)
    ensures x < TwoTo32 ==> r == x
  {
    x % TwoTo32
  }

  /**
   * set_audio_dvi_parameters as written.  For a rate outside the table the
   * product 128 * rate * cts is formed in 32-bit unsigned arithmetic.
   */
  function AudioDviParametersAsWritten(rate: U32): (p: ClockRegen)
    ensures p.n < TwoTo32
    ensures IsTableRate(rate) ==> 128 * rate * p.cts == TmdsClockHz * p.n
    ensures !IsTableRate(rate) ==> p.cts == 25200
  {
    if rate == 96000 then ClockRegen(25200, 6144 * 2)
    else if rate == 48000 then ClockRegen(25200, 6144)
    else if rate == 44100 then ClockRegen(28000, 6272)
    else if rate == 32000 then ClockRegen(25200, 4096)
    else ClockRegen(25200, Wrap32(128 * rate * 25200) / TmdsClockHz)
  }

  /** Up to 1331 Hz the product fits in 32 bits and N is the HDMI value rounded down. */
  lemma AsWrittenExactBelowWrap(rate: U32)
    requires !IsTableRate(rate) && rate <= 1331
    ensures var p := AudioDviParametersAsWritten(rate);
      TmdsClockHz * p.n <= 128 * rate * p.cts < TmdsClockHz * (p.n + 1)
  {
    assert 128 * rate * 25200 <= 128 * 1331 * 25200;
  }

  /** 22050 Hz, not in the table: the 32-bit product wraps and N comes out as 95 instead of 2822. */
  lemma AsWrittenWrapsAt22050()
    ensures AudioDviParametersAsWritten(22050) == ClockRegen(25200, 95)
    ensures AudioDviParametersCorrected(22050) == ClockRegen(25200, 2822)
    ensures 128 * 22050 * 25200 >= TwoTo32
  {
  }

  /**
   * The CTS/N choice with the product formed without overflow: for every rate
   * N is the HDMI value 128 * fs * CTS / f_TMDS, exact for the table rates and
   * rounded down otherwise, and still a 32-bit value.
   */
  function AudioDviParametersCorrected(rate: U32): (p: ClockRegen)
    ensures p.n < TwoTo32
    ensures p.cts == 25200 || p.cts == 28000
    ensures IsTableRate(rate) ==> 128 * rate * p.cts == TmdsClockHz * p.n
    ensures TmdsClockHz * p.n <= 128 * rate * p.cts < TmdsClockHz * (p.n + 1)
  {
    if rate == 96000 then ClockRegen(25200, 6144 * 2)
    else if rate == 48000 then ClockRegen(25200, 6144)
    else if rate == 44100 then ClockRegen(28000, 6272)
    else if rate == 32000 then ClockRegen(25200, 4096)
    else ClockRegen(25200, (128 * rate * 25200) / TmdsClockHz)
  }

  /** The correction changes nothing where the written code does not overflow. */
  lemma CorrectedAgreesBelowWrap(rate: U32)
    requires rate <= 1331 || IsTableRate(rate)
    ensures AudioDviParametersCorrected(rate) == AudioDviParametersAsWritten(rate)
  {
    if !IsTableRate(rate) {
      assert 128 * rate * 25200 <= 128 * 1331 * 25200;
    }
  }

  /** A uint16_t result: the value modulo 2^16. */
  function Wrap16(x: nat): (r: nat)
    ensures r < TwoTo16
    ensures x < TwoTo16 ==> r == x
  {
    x % TwoTo16
  }

  /**
   * set_audio_sampling_parameters.  The timer ticks at SysClockHz * num / den;
   * outside the table num is 1 and den is 252000000 / rate, truncated to
   * 16 bits.  A zero rate would divide by zero, so the caller must not pass it.
   */
  function AudioSamplingParameters(rate: U32): (f: TimerFraction)
    requires rate != 0
    ensures f.numerator < TwoTo16 && f.denominator < TwoTo16
    ensures rate == 96000 || rate == 48000 || rate == 32000 ==>
      SysClockHz * f.numerator == rate * f.denominator
    ensures IsTableRate(rate) ==>
      rate * f.denominator < SysClockHz * f.numerator + f.denominator &&
      SysClockHz * f.numerator < rate * f.denominator + f.denominator
    ensures !IsTableRate(rate) ==> f.numerator == 1
  {
    if rate == 96000 then TimerFraction(1, 2625)
    else if rate == 48000 then TimerFraction(1, 5250)
    else if rate == 44100 then TimerFraction(4, 22857)
    else if rate == 32000 then TimerFraction(1, 7875)
    else TimerFraction(1, Wrap16(SysClockHz / rate))
  }

  /** 44100 Hz is not hit exactly: the timer runs at 1008000000 / 22857, about 44100.28 Hz. */
  lemma Sampling44100NotExact()
    ensures var f := AudioSamplingParameters(44100);
      SysClockHz * f.numerator - 44100 * f.denominator == 6300
  {
  }

  /**
   * From 3846 Hz up the 16-bit denominator does not truncate, and the timer
   * rate 252 MHz / den is the sample rate rounded up to the next reachable rate.
   */
  lemma SamplingDefaultRoundsDown(rate: U32)
    requires !IsTableRate(rate) && rate >= 3846
    ensures var f := AudioSamplingParameters(rate);
      f.denominator * rate <= SysClockHz < (f.denominator + 1) * rate
  {
    var d := SysClockHz / rate;
    DivBounds(SysClockHz, rate);
    MulLeMono(3846, rate, d);
    assert d < TwoTo16;
  }

  lemma DivBounds(a: nat, b: nat)
    requires b > 0
    ensures (a / b) * b <= a < (a / b + 1) * b
  {
  }

  lemma MulLeMono(a: nat, b: nat, d: nat)
    requires a <= b
    ensures d * a <= d * b
  {
  }
}
