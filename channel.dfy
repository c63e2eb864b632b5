/** The channel mapper: radiotap frequency in MHz to a 2.4 GHz channel number. */
module Channel {

  /**
   * Go's integer division, which truncates toward zero. Dafny's `/` on `int` is
   * Euclidean and rounds negative quotients down instead, so the two differ
   * whenever the dividend is negative and not a multiple of the divisor.
   */
  function TruncDiv(a: int, b: int): (q: int)
    requires b > 0
    ensures a >= 0 ==> 0 <= a - q * b < b
    ensures a < 0 ==> -b < a - q * b <= 0
  {
    if a >= 0 then a / b else -((-a) / b)
  }

  /** Centre frequency, in MHz, of 2.4 GHz channel `c` by the 5 MHz spacing rule. */
  function CentreMhz(c: int): int
  {
    2407 + 5 * c
  }

  /**
   * `WlanMhzToChannel`: `((freq - 2412) / 5) + 1` with Go's truncating division up
   * to 2484 MHz, and the sentinel 0 above it. Inside the band the result is the
   * channel whose centre is at or just below `freq`; below 2412 MHz truncation
   * rounds toward channel 1, so the result is the channel whose centre is at or
   * just above `freq`.
   */
  function WlanMhzToChannel(freq: int): (ch: int)
    ensures freq > 2484 ==> ch == 0
    ensures 2412 <= freq <= 2484 ==> 1 <= ch <= 15 && CentreMhz(ch) <= freq < CentreMhz(ch) + 5
    ensures freq < 2412 ==> ch <= 1 && freq <= CentreMhz(ch) < freq + 5
  {
    if freq <= 2484 then TruncDiv(freq - 2412, 5) + 1 else 0
  }

  /**
   * Every `c` from 1 to 14 is recovered from `2407 + 5c`. For channels 1 to 13
   * that is the channel's centre frequency; channel 14 is the exception, centred
   * at 2484 MHz, which the mapper sends to 15 (see `BandEdges`).
   */
  lemma CentreRoundTrip(c: int)
    requires 1 <= c <= 14
    ensures WlanMhzToChannel(CentreMhz(c)) == c
  {
  }

  /**
   * The fixed points: 2412 MHz is channel 1, 2484 MHz maps
   * to 15 (IEEE 802.11 places channel 14 at 2484 MHz; the formula has no special
   * case for it), and everything above 2484 MHz is the sentinel 0.
   */
  lemma BandEdges()
    ensures WlanMhzToChannel(2412) == 1
    ensures WlanMhzToChannel(2484) == 15
    ensures WlanMhzToChannel(2485) == 0
    ensures WlanMhzToChannel(2500) == 0
  {
  }

  /**
   * Just below the band, truncation and Euclidean division part ways: 2408 to
   * 2411 MHz give channel 1, where Euclidean division would give 0; and 2403 to
   * 2407 MHz give 0, the same value as the out-of-band sentinel.
   */
  lemma BelowBand(freq: int)
    ensures 2408 <= freq <= 2411 ==> WlanMhzToChannel(freq) == 1 && (freq - 2412) / 5 + 1 == 0
    ensures 2403 <= freq <= 2407 ==> WlanMhzToChannel(freq) == 0
  {
  }

  /** The result is a channel from 1 to 15 exactly when the frequency lies in 2408..2484 MHz. */
  lemma InBandIff(freq: int)
    ensures 1 <= WlanMhzToChannel(freq) <= 15 <==> 2408 <= freq <= 2484
  {
  }
}
