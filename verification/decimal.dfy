/** The virtual-node key `fmt.Sprintf("%s_%d", nodeId, i)`: the identifier,
    an underscore, and the replica index in decimal. */
module Decimal {

  predicate IsDigit(c: char) {
    '0' <= c <= '9'
  }

  function DigitChar(d: nat): (c: char)
    requires d < 10
    ensures IsDigit(c)
    ensures c as int - '0' as int == d
  {
    (d + '0' as int) as char
  }

  /** `%d` of a non-negative integer: decimal digits, no sign, no padding. */
  function NatToString(n: nat): (s: string)
    ensures 0 < |s|
    ensures forall k :: 0 <= k < |s| ==> IsDigit(s[k])
    ensures n < 10 <==> |s| == 1
    decreases n
  {
    if n < 10 then [DigitChar(n)]
    else NatToString(n / 10) + [DigitChar(n % 10)]
  }

  /** Distinct indices print differently. */
  lemma {:induction false} NatToStringInjective(a: nat, b: nat)
    requires NatToString(a) == NatToString(b)
    ensures a == b
    decreases a
  {
    var s := NatToString(a);
    if a < 10 {
      assert |NatToString(b)| == 1;
      assert s[0] == DigitChar(a);
      assert s[0] == DigitChar(b);
    } else {
      assert 10 <= b;
      var n := |s|;
      assert s == NatToString(a / 10) + [DigitChar(a % 10)];
      assert s == NatToString(b / 10) + [DigitChar(b % 10)];
      assert s[n - 1] == DigitChar(a % 10) == DigitChar(b % 10);
      assert NatToString(a / 10) == s[..n - 1] == NatToString(b / 10);
      NatToStringInjective(a / 10, b / 10);
    }
  }

  /** The key hashed for virtual node `i` of the node named `id`. */
  function VirtualKey(id: string, i: nat): (k: string)
    ensures |k| == |id| + 1 + |NatToString(i)|
    ensures k[..|id|] == id && k[|id|] == '_'
    ensures k[|id| + 1..] == NatToString(i)
  {
    id + "_" + NatToString(i)
  }

  /** The identifier and the index can both be read back from a virtual key:
      the digits after the last underscore are the index, and what precedes
      that underscore is the identifier.  So two virtual nodes share a key
      only if they are the same replica of the same node. */
  lemma VirtualKeyInjective(a: string, i: nat, b: string, j: nat)
    requires VirtualKey(a, i) == VirtualKey(b, j)
    ensures a == b && i == j
  {
    var k := VirtualKey(a, i);
    var di, dj := NatToString(i), NatToString(j);
    assert k == a + "_" + di == b + "_" + dj;
    // The shorter digit string is preceded by an underscore, which the
    // longer one would have to cover with a digit.  Naming the character
    // at that index is the hint: the solver then reads `k[u]` through both
    // decompositions of `k` and finds the lengths cannot differ.
    var u := |k| - (if |di| < |dj| then |di| else |dj|) - 1;
    var atSeparator := k[u];
    assert |di| == |dj|;
    assert di == k[|k| - |di|..] == dj;
    NatToStringInjective(i, j);
    assert a == k[..|a|] == b;
  }
}
