/**
 * The two pieces of arithmetic in the over-the-air update path: the size
 * handed to `Update.begin` for a web upload, and the percentage reported
 * to event-source listeners while ArduinoOTA receives an image.
 */
module Ota {
  import opened Wrappers

  /** An `unsigned int` on the ESP8266 (32 bits). */
  newtype u32 = x: int | 0 <= x < 0x1_0000_0000

  /**
   * `(ESP.getFreeSketchSpace() - 0x1000) & 0xFFFFF000` in 32-bit unsigned
   * arithmetic: the free sketch space less one 4 KiB sector, rounded down
   * to a whole sector. Below one sector the subtraction wraps around.
   */
  function BeginSize(free: bv32): (r: bv32)
    ensures r & 0xFFF == 0 && r % 0x1000 == 0
    ensures free >= 0x1000 ==> r <= free - 0x1000 && free - 0x1000 - r < 0x1000
    ensures free < 0x1000 ==> r == 0xFFFFF000
  {
    (free - 0x1000) & 0xFFFFF000
  }

  /**
   * The progress printed by the `onProgress` callback, exactly as written:
   * `progress / (total / 100)` in unsigned integer division. When `total`
   * is below 100 the divisor is zero: the C++ division is undefined and
   * faults on the device, which `None` stands for.
   */
  function ProgressAsWritten(progress: u32, total: u32): (r: Option<u32>)
    ensures r.None? <==> total < 100
    ensures r.Some? ==> (r.value as int) * (total as int / 100) <= progress as int
  {
    if total / 100 == 0 then None else Some(progress / (total / 100))
  }

  /** A small image's full progress is printed as 199 percent. */
  lemma ProgressOvershoots()
    ensures ProgressAsWritten(199, 199) == Some(199)
  {
  }

  /** An image of fewer than 100 bytes makes the callback divide by zero. */
  lemma ProgressDividesByZero(progress: u32, total: u32)
    requires total < 100
    ensures ProgressAsWritten(progress, total).None?
  {
  }

  /** `a <= b` scales by any natural factor. */
  lemma MulMonotone(a: int, b: int, c: nat)
    requires a <= b
    ensures a * c <= b * c
  {
    var d := b - a;
    assert b * c == a * c + d * c;
  }

  /** The quotient times the divisor lies within one divisor below the dividend. */
  lemma DivBounds(n: nat, d: nat)
    requires d > 0
    ensures (n / d) * d <= n < (n / d) * d + d
  {
  }

  /** For a divisor `q` of at least 100, `p <= 100 * q + 99` gives a quotient of at most 100. */
  lemma QuotientAtMost100(p: nat, q: nat)
    requires q >= 100 && p < 100 * q + 100
    ensures p / q <= 100
  {
    var v := p / q;
    DivBounds(p, q);
    if v > 100 {
      MulMonotone(101, v, q);
      assert false;
    }
  }

  /** From 10000 bytes on, the value as written never exceeds 100. */
  lemma ProgressBoundedForLargeImages(progress: u32, total: u32)
    requires total >= 10000 && progress <= total
    ensures ProgressAsWritten(progress, total).Some?
    ensures ProgressAsWritten(progress, total).value <= 100
  {
    var t: nat := total as int;
    DivBounds(t, 100);
    QuotientAtMost100(progress as int, t / 100);
  }

  /**
   * The evidently intended percentage, `progress * 100 / total`, taken in
   * unbounded arithmetic (the product needs more than 32 bits once
   * `progress` exceeds 42949672 bytes); `None` only for an empty image.
   */
  function ProgressPercent(progress: nat, total: nat): (r: Option<nat>)
    ensures r.None? <==> total == 0
  {
    if total == 0 then None else Some(progress * 100 / total)
  }

  /** The intended percentage is at most 100 and reaches 100 exactly at the end. */
  lemma ProgressPercentBounded(progress: nat, total: nat)
    requires 0 < total && progress <= total
    ensures ProgressPercent(progress, total).Some?
    ensures ProgressPercent(progress, total).value <= 100
    ensures ProgressPercent(progress, total).value == 100 <==> progress == total
  {
    var n: nat := progress * 100;
    var v := n / total;
    DivBounds(n, total);
    MulMonotone(progress, total, 100);
    if v > 100 {
      MulMonotone(101, v, total);
      assert false;
    }
    if progress == total {
      assert n == 100 * total;
      if v < 100 {
        MulMonotone(v, 99, total);
        assert false;
      }
    }
    if progress < total {
      MulMonotone(progress, total - 1, 100);
      if v >= 100 {
        MulMonotone(100, v, total);
        assert false;
      }
    }
  }
}
