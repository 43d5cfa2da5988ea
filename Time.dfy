/** The millisecond clock value (TTime): an unsigned 32-bit count of
    milliseconds whose `+` and `-` wrap modulo 2^32 and whose comparisons
    are plain unsigned comparisons. */
module Time {

  const Modulus: int := 0x1_0000_0000

  /** `unsigned long Value` on the target. */
  type Time = t: int | 0 <= t < 0x1_0000_0000

  /** TTime::Zero(): "immediately"; also the default NotBefore. */
  const Zero: Time := 0

  /** TTime::Max(): `TTime(-1)`, all bits set, the "never" sentinel. */
  const Max: Time := 0xFFFF_FFFF

  /** Unsigned addition, wrapping modulo 2^32. */
  function Add(a: Time, b: Time): (r: Time)
    ensures a + b < Modulus ==> r == a + b
    ensures a + b >= Modulus ==> r == a + b - Modulus
  {
    (a + b) % Modulus
  }

  /** Unsigned subtraction, wrapping modulo 2^32. */
  function Sub(a: Time, b: Time): (r: Time)
    ensures b <= a ==> r == a - b
    ensures a < b ==> r == a - b + Modulus
  {
    (a - b) % Modulus
  }

  /** TTime::MilliSeconds(ms): the argument is already an unsigned long. */
  function MilliSeconds(ms: Time): (r: Time)
    ensures r == ms
  {
    ms
  }

  /** TTime::Seconds(s): `s * 1000` computed in unsigned long arithmetic. */
  function Seconds(s: Time): (r: Time)
    ensures s * 1000 < Modulus ==> r == s * 1000
    ensures (r - s * 1000) % Modulus == 0
  {
    (s * 1000) % Modulus
  }

  /** Subtracting what was added gives back the original value, also across the wrap. */
  lemma SubAddRoundTrip(a: Time, b: Time)
    ensures Sub(Add(a, b), b) == a
  {
    if a + b >= Modulus {
      assert Add(a, b) == a + b - Modulus;
    }
  }

  /** Adding back what was subtracted gives back the original value, also across the wrap. */
  lemma AddSubRoundTrip(a: Time, b: Time)
    ensures Add(Sub(a, b), b) == a
  {
    if a < b {
      assert Sub(a, b) == a - b + Modulus;
    }
  }

  /** Wrapping addition does not always move forward in the unsigned order:
      adding a positive period to a late enough time lands before it. */
  lemma AddWrapsBelow(a: Time, b: Time)
    requires 0 < b && a + b >= Modulus
    ensures Add(a, b) < a
  {
  }

  /** The all-ones sentinel is the largest value and one step past it is Zero. */
  lemma MaxIsLargest(t: Time)
    ensures t <= Max && Add(Max, 1) == Zero
  {
  }
}
