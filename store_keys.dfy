/** The key scheme of the store-backed limiters: `_make_key` and the decimal window starts that
    the fixed-window and sliding-window-counter limiters put in their keys. */
module StoreKeys {

  /** `_make_key(identifier, suffix)`: `prefix:identifier`, followed by `:suffix` when the suffix
      is not empty. */
  function MakeKey(prefix: string, identifier: string, suffix: string): (key: string)
    ensures |key| >= |prefix| + 1 + |identifier|
    ensures key[..|prefix| + 1 + |identifier|] == prefix + ":" + identifier
    ensures suffix == [] <==> |key| == |prefix| + 1 + |identifier|
    ensures suffix != [] ==> key[|prefix| + 1 + |identifier|..] == ":" + suffix
  {
    var key := prefix + ":" + identifier;
    if suffix != [] then key + ":" + suffix else key
  }

  /** The character of one decimal digit. */
  function Digit(d: nat): (c: char)
    requires d < 10
    ensures '0' <= c <= '9' && c as int - '0' as int == d
  {
    ('0' as int + d) as char
  }

  predicate IsDigits(s: string) {
    forall i :: 0 <= i < |s| ==> '0' <= s[i] <= '9'
  }

  /** `str(n)` for a natural number: its decimal digits, most significant first, no leading
      zero. */
  function NatToDecimal(n: nat): (s: string)
    ensures |s| >= 1 && IsDigits(s)
    ensures |s| == 1 <==> n < 10
    decreases n
  {
    if n < 10 then [Digit(n)] else NatToDecimal(n / 10) + [Digit(n % 10)]
  }

  /** `str(n)` for any integer: a minus sign in front of the digits of a negative number. */
  function IntToDecimal(n: int): (s: string)
    ensures |s| >= 1 && ':' !in s
    ensures n >= 0 <==> IsDigits(s)
  {
    if n < 0 then
      var s := "-" + NatToDecimal(-n);
      assert s[0] == '-';
      s
    else NatToDecimal(n)
  }

  /** The value of a string of decimal digits, as `int(s)` reads it. */
  function ParseDigits(s: string): (n: nat)
    requires IsDigits(s)
    decreases |s|
  {
    if s == [] then 0 else 10 * ParseDigits(s[..|s| - 1]) + (s[|s| - 1] as int - '0' as int)
  }

  /** Reading the digits back gives the number: `int(str(n)) == n`. */
  lemma {:induction false} NatDecimalRoundTrip(n: nat)
    ensures ParseDigits(NatToDecimal(n)) == n
    decreases n
  {
    var s := NatToDecimal(n);
    if n < 10 {
      assert s[..0] == [];
    } else {
      NatDecimalRoundTrip(n / 10);
      assert s[..|s| - 1] == NatToDecimal(n / 10);
    }
  }

  /** Different natural numbers have different digits. */
  lemma NatToDecimalIsInjective(a: nat, b: nat)
    requires NatToDecimal(a) == NatToDecimal(b)
    ensures a == b
  {
    NatDecimalRoundTrip(a);
    NatDecimalRoundTrip(b);
  }

  /** Different integers have different decimal forms. */
  lemma IntToDecimalIsInjective(a: int, b: int)
    requires IntToDecimal(a) == IntToDecimal(b)
    ensures a == b
  {
    if a < 0 && b < 0 {
      var s := IntToDecimal(a);
      assert s[1..] == NatToDecimal(-a);
      assert s[1..] == NatToDecimal(-b);
      NatToDecimalIsInjective(-a, -b);
    } else if a >= 0 && b >= 0 {
      NatToDecimalIsInjective(a, b);
    }
  }

  /** The key of `identifier`'s window that starts at `start`: `_make_key(identifier,
      str(window_start))`. */
  function WindowKey(prefix: string, identifier: string, start: int): (key: string)
    ensures |key| == |prefix| + 1 + |identifier| + 1 + |IntToDecimal(start)|
    ensures key[..|prefix| + 1 + |identifier|] == prefix + ":" + identifier
    ensures key[|prefix| + 1 + |identifier|..] == ":" + IntToDecimal(start)
  {
    MakeKey(prefix, identifier, IntToDecimal(start))
  }

  /** Keys without a suffix (token bucket, sliding log) are one per identifier. */
  lemma PlainKeysAreDistinct(prefix: string, id1: string, id2: string)
    requires MakeKey(prefix, id1, "") == MakeKey(prefix, id2, "")
    ensures id1 == id2
  {
    var k := MakeKey(prefix, id1, "");
    assert id1 == k[|prefix| + 1..];
  }

  /** Keys with a window start as suffix (fixed window, sliding counter) are one per identifier
      and window, whatever the identifier contains: the suffix has no colon, so the last colon of
      the key separates the two. */
  lemma WindowKeysAreDistinct(prefix: string, id1: string, s1: int, id2: string, s2: int)
    requires WindowKey(prefix, id1, s1) == WindowKey(prefix, id2, s2)
    ensures id1 == id2 && s1 == s2
  {
    var d1, d2 := IntToDecimal(s1), IntToDecimal(s2);
    var k := MakeKey(prefix, id1, d1);
    assert k == prefix + ":" + id1 + ":" + d1;
    assert k == prefix + ":" + id2 + ":" + d2;
    // The colon before the shorter suffix would fall inside the longer one.
    if |d1| < |d2| {
      ColonBeforeSuffix(prefix + ":" + id1, d1, prefix + ":" + id2, d2);
    } else if |d2| < |d1| {
      ColonBeforeSuffix(prefix + ":" + id2, d2, prefix + ":" + id1, d1);
    }
    assert d1 == k[|k| - |d1|..] == d2;
    IntToDecimalIsInjective(s1, s2);
    assert id1 == k[|prefix| + 1..|k| - |d1| - 1] == id2;
  }

  /** `a + ":" + d` ends in the colon-free `d`; it cannot also end in a longer colon-free
      suffix. */
  lemma ColonBeforeSuffix(a: string, d: string, b: string, e: string)
    requires ':' !in e && |d| < |e|
    ensures a + ":" + d != b + ":" + e
  {
    var x, y := a + ":" + d, b + ":" + e;
    assert x[|x| - 1 - |d|] == ':';
  }

  /** The two keys are the same string when the identifier itself contains a colon: `a:b` with
      no suffix and `a` with suffix `b` share a key. */
  lemma ColonInIdentifierSharesKey()
    ensures MakeKey("rate_limit", "a:b", "") == MakeKey("rate_limit", "a", "b")
  {
  }
}
