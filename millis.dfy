/** The Arduino millisecond clock: an `unsigned long` (32 bits on the
    ESP8266) that wraps around after about 49.7 days. All arithmetic on
    timestamps is modulo 2^32, and "has this moment passed" is decided by
    reading the wrapped difference as a signed 32-bit value. */
module Millis {

  const Modulus: int := 0x1_0000_0000
  const HalfModulus: int := 0x8000_0000

  /** A value of the `unsigned long` clock. */
  type Millis = x: int | 0 <= x < 0x1_0000_0000

  /** A value of a signed 32-bit `long`. */
  type Long = x: int | -0x8000_0000 <= x < 0x8000_0000

  /** `t + delta` computed in `unsigned long` arithmetic (a negative `long`
      delta is converted to unsigned first, which is the same modulo 2^32). */
  function Add(t: Millis, delta: int): Millis
  {
    (t + delta) % Modulus
  }

  /** `now - since` computed in `unsigned long` arithmetic: the time that has
      passed since `since`, provided less than one full wrap has passed. */
  function Elapsed(now: Millis, since: Millis): (r: Millis)
    ensures Add(since, r) == now
  {
    if since <= now then now - since else now - since + Modulus
  }

  /** Reads an `unsigned long` as the signed `long` with the same bits. */
  function ToSigned(x: Millis): (r: Long)
    ensures r % Modulus == x
    ensures r >= 0 <==> x < HalfModulus
  {
    if x < HalfModulus then x else x - Modulus
  }

  /** The wrap-safe "deadline reached" test: the wrapped difference
      `now - target`, read as a signed value, is not negative. */
  predicate Reached(now: Millis, target: Millis)
  {
    ToSigned(Elapsed(now, target)) >= 0
  }

  /** Subtraction undoes wrapped addition: after waiting `d` (less than one
      wrap) from `t`, exactly `d` has elapsed, wherever `t` lies on the
      clock, including just before the counter wraps. */
  lemma ElapsedAfterAdd(t: Millis, d: int)
    requires 0 <= d < Modulus
    ensures Elapsed(Add(t, d), t) == d
  {
    if t + d < Modulus {
      assert Add(t, d) == t + d;
    } else {
      assert Add(t, d) == t + d - Modulus;
    }
  }

  /** A deadline set `d` milliseconds after `t` (d below half a wrap) is
      reached at `t + p` exactly when `p >= d`, for every `p` up to half a
      wrap past the deadline, and also when the counter wraps in between. */
  lemma ReachedIffDelayPassed(t: Millis, d: int, p: int)
    requires 0 <= d < HalfModulus
    requires 0 <= p < d + HalfModulus
    ensures Reached(Add(t, p), Add(t, d)) <==> d <= p
  {
    var now, target := Add(t, p), Add(t, d);
    ElapsedAfterAdd(t, p);
    ElapsedAfterAdd(t, d);
    if d <= p {
      assert Elapsed(now, target) == p - d by {
        assert Add(target, p - d) == now;
        ElapsedAfterAdd(target, p - d);
      }
    } else {
      assert Elapsed(now, target) == p - d + Modulus by {
        assert Add(target, p - d + Modulus) == now;
        ElapsedAfterAdd(target, p - d + Modulus);
      }
    }
  }
}
