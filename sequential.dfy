/**
 * Names of EPHEMERAL_SEQUENTIAL nodes: the coordination service appends to the
 * requested name its per-parent counter, written in decimal with zero padding
 * to ten digits. Padding makes the character order of two suffixes the
 * numeric order of their counters, which is what lets the lock rank
 * contenders by name.
 */
module Sequential {
  import opened Names

  /** Digits in a sequence suffix. */
  const Width: nat := 10

  /** The service keeps the counter in a signed 32-bit integer. */
  const MaxCounter: nat := 0x7fff_ffff

  function Pow10(w: nat): (r: nat)
    ensures r >= 1
  {
    if w == 0 then 1 else 10 * Pow10(w - 1)
  }

  function Digit(d: nat): (c: char)
    requires d < 10
    ensures '0' <= c <= '9'
  {
    (('0' as int) + d) as char
  }

  /** n written in exactly w decimal digits, leading zeros first. */
  function Padded(n: nat, w: nat): (r: string)
    requires n < Pow10(w)
    ensures |r| == w
    decreases w
  {
    if w == 0 then []
    else Padded(n / 10, w - 1) + [Digit(n % 10)]
  }

  /** The suffix the service appends for counter value n. */
  function Suffix(n: nat): (r: string)
    requires n <= MaxCounter
    ensures |r| == Width
  {
    assert Pow10(Width) == 10_000_000_000;
    Padded(n, Width)
  }

  /** Names of equal length that differ before their last character are ordered by that difference. */
  lemma {:induction false} BelowSnoc(x: string, y: string, c: char, d: char)
    requires |x| == |y|
    ensures Below(x + [c], y + [d]) <==> Below(x, y) || (x == y && c < d)
    ensures x + [c] == y + [d] <==> x == y && c == d
    decreases |x|
  {
    if |x| > 0 {
      assert (x + [c])[1..] == x[1..] + [c];
      assert (y + [d])[1..] == y[1..] + [d];
      BelowSnoc(x[1..], y[1..], c, d);
      if x[1..] == y[1..] && x[0] == y[0] {
        assert x == [x[0]] + x[1..] && y == [y[0]] + y[1..];
      }
    } else {
      assert x + [c] == [c] && y + [d] == [d];
    }
    if x + [c] == y + [d] {
      assert (x + [c])[..|x|] == x && (y + [d])[..|y|] == y;
    }
  }

  /** Padded numbers compare, as names, the way the numbers do, and differ when the numbers differ. */
  lemma {:induction false} PaddedOrder(a: nat, b: nat, w: nat)
    requires a < Pow10(w) && b < Pow10(w)
    ensures Below(Padded(a, w), Padded(b, w)) <==> a < b
    ensures Padded(a, w) == Padded(b, w) <==> a == b
    decreases w
  {
    if w > 0 {
      PaddedOrder(a / 10, b / 10, w - 1);
      BelowSnoc(Padded(a / 10, w - 1), Padded(b / 10, w - 1), Digit(a % 10), Digit(b % 10));
    }
  }

  /** The children "sub" + suffix of one parent are ordered by creation: the lower counter sorts first. */
  lemma SequentialOrder(prefix: string, a: nat, b: nat)
    requires a <= MaxCounter && b <= MaxCounter
    ensures Below(prefix + Suffix(a), prefix + Suffix(b)) <==> a < b
    ensures prefix + Suffix(a) == prefix + Suffix(b) <==> a == b
  {
    assert Pow10(Width) == 10_000_000_000;
    PaddedOrder(a, b, Width);
    BelowAfterCommonPrefix(prefix, Suffix(a), Suffix(b));
    if prefix + Suffix(a) == prefix + Suffix(b) {
      assert (prefix + Suffix(a))[|prefix|..] == Suffix(a);
      assert (prefix + Suffix(b))[|prefix|..] == Suffix(b);
    }
  }

  /** A sequential name ends in the suffix of its counter, whatever was asked for. */
  predicate EndsWithSuffix(name: string, n: nat)
    requires n <= MaxCounter
  {
    |name| >= Width && name[|name| - Width..] == Suffix(n)
  }

  lemma SuffixOfSequentialName(prefix: string, n: nat)
    requires n <= MaxCounter
    ensures EndsWithSuffix(prefix + Suffix(n), n)
  {
    var name := prefix + Suffix(n);
    assert name[|name| - Width..] == Suffix(n);
  }

  /** Names ending in the suffixes of different counters are different names, whatever their prefixes. */
  lemma DistinctCounters(x: string, m: nat, y: string, n: nat)
    requires m <= MaxCounter && n <= MaxCounter
    requires EndsWithSuffix(x, m) && EndsWithSuffix(y, n) && m != n
    ensures x != y
  {
    assert Pow10(Width) == 10_000_000_000;
    PaddedOrder(m, n, Width);
  }

}
