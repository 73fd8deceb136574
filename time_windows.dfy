/** Fixed windows on the clock: `int(now // window_size) * window_size`, used by the fixed-window
    and sliding-window-counter limiters, local and store-backed. */
module TimeWindows {

  /** The start of the window of length `size` that contains `now`. Python's `//` floors, and
      `int` of an integral float is exact, so this is the floor taken on exact reals. */
  function WindowStart(size: int, now: real): (start: int)
    requires size > 0
    ensures start as real <= now < (start + size) as real
    ensures start % size == 0
  {
    var k := (now / size as real).Floor;
    FloorScaled(now, size);
    MultipleHasNoRemainder(k, size);
    k * size
  }

  /** Scaling `k <= x / w < k + 1` back by `w`. */
  lemma FloorScaled(x: real, w: int)
    requires w > 0
    ensures var k := (x / w as real).Floor;
      (k * w) as real <= x < ((k + 1) * w) as real
  {
    var k := (x / w as real).Floor;
    var q := x / w as real;
    assert k as real <= q < k as real + 1.0;
    assert q * w as real == x;
    ScaleLe(k as real, q, w as real);
    ScaleLt(q, k as real + 1.0, w as real);
    assert (k * w) as real == k as real * w as real;
    assert (k as real + 1.0) * w as real == k as real * w as real + w as real;
    assert ((k + 1) * w) as real == (k * w) as real + w as real;
    assert x < (k as real + 1.0) * w as real;
    assert x < ((k + 1) * w) as real;
  }

  lemma ScaleLe(a: real, b: real, c: real)
    requires a <= b && c > 0.0
    ensures a * c <= b * c
  {
  }

  lemma ScaleLt(a: real, b: real, c: real)
    requires a < b && c > 0.0
    ensures a * c < b * c
  {
  }

  lemma MultipleHasNoRemainder(k: int, w: int)
    requires w > 0
    ensures (k * w) % w == 0
  {
    var q, r := (k * w) / w, (k * w) % w;
    assert q * w + r == k * w;
    assert (q - k) * w == -r;
    if q - k >= 1 {
      AtLeastOneTimes(q - k, w);
    } else if q - k <= -1 {
      AtLeastOneTimes(k - q, w);
    }
  }

  lemma AtLeastOneTimes(a: int, w: int)
    requires a >= 1 && w > 0
    ensures a * w >= w
  {
    assert a * w == (a - 1) * w + w;
  }

  /** The window start is the unique multiple of `size` at or below `now` that is closer than
      `size`: any such multiple `k * size` is the one `WindowStart` returns. */
  lemma WindowStartIsUnique(size: int, now: real, k: int)
    requires size > 0
    requires (k * size) as real <= now < ((k + 1) * size) as real
    ensures WindowStart(size, now) == k * size
  {
    var w := size as real;
    var q := now / w;
    assert q * w == now;
    assert (k * size) as real == k as real * w;
    assert ((k + 1) * size) as real == (k as real + 1.0) * w;
    if q < k as real {
      ScaleLt(q, k as real, w);
      assert false;
    }
    if q >= k as real + 1.0 {
      ScaleLe(k as real + 1.0, q, w);
      assert false;
    }
    assert q.Floor == k;
  }

  /** The next window starts exactly `size` after this one. */
  lemma NextWindowStart(size: int, now: real)
    requires size > 0
    ensures WindowStart(size, (WindowStart(size, now) + size) as real) == WindowStart(size, now) + size
  {
    var s := WindowStart(size, now);
    var j := s / size;
    assert s == j * size;
    assert (j + 1) * size == s + size;
    assert (j + 2) * size == s + size + size;
    WindowStartIsUnique(size, (s + size) as real, j + 1);
  }

  /** Any time from a window's start up to (not including) its end lies in that same window. */
  lemma StaysInWindow(size: int, now: real, t: real)
    requires size > 0
    requires WindowStart(size, now) as real <= t < (WindowStart(size, now) + size) as real
    ensures WindowStart(size, t) == WindowStart(size, now)
  {
    var s := WindowStart(size, now);
    var k := s / size;
    MultipleHasNoRemainder(k, size);
    assert s == k * size;
    assert (k + 1) * size == s + size;
    WindowStartIsUnique(size, t, k);
  }
}
