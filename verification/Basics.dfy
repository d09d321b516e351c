module Options {
  datatype Option<+T> = None | Some(value: T)
}

/** The fixed-width unsigned types of shared/types.h. */
module MachineTypes {
  type U8 = x: int | 0 <= x < 0x100
  type U16 = x: int | 0 <= x < 0x1_0000
  type U32 = x: int | 0 <= x < 0x1_0000_0000
  type U64 = x: int | 0 <= x < 0x1_0000_0000_0000_0000

  function Add32(a: U32, b: U32): U32 { (a + b) % 0x1_0000_0000 }
}

module Division {
  lemma NonzeroMultiple(k: int, d: int)
    requires d > 0
    ensures k > 0 ==> k * d >= d
    ensures k < 0 ==> k * d <= -d
  {
    if k > 0 {
      var n := k - 1;
      assert k * d == (n + 1) * d == n * d + d;
      assert n * d >= 0;
    } else if k < 0 {
      var n := -k - 1;
      assert k * d == (-n - 1) * d == -(n * d) - d;
      assert n * d >= 0;
    }
  }

  /** Quotient and remainder are unique. */
  lemma DivModIs(a: int, d: nat, q: int, r: nat)
    requires 0 < d && r < d && a == q * d + r
    ensures a / d == q && a % d == r
  {
    var k := a / d - q;
    assert a == a / d * d + a % d;
    assert k * d == r - a % d;
    NonzeroMultiple(k, d);
  }
}

module Counting {
  /** The naturals below `n`. */
  ghost function Below(n: nat): (s: set<nat>)
    ensures |s| == n && forall i: nat :: i in s <==> i < n
  {
    if n == 0 then {} else Below(n - 1) + {n - 1}
  }

  lemma {:induction false} SetOfDistinct(list: seq<nat>) returns (s: set<nat>)
    requires forall k, m :: 0 <= k < m < |list| ==> list[k] != list[m]
    ensures |s| == |list| && forall x :: x in s <==> x in list
  {
    if list == [] {
      return {};
    }
    var n := |list| - 1;
    s := SetOfDistinct(list[..n]);
    assert list == list[..n] + [list[n]];
    s := s + {list[n]};
  }

  lemma {:induction false} SubsetSize(a: set<nat>, b: set<nat>)
    requires a <= b
    ensures |a| <= |b|
  {
    if a != {} {
      var x :| x in a;
      SubsetSize(a - {x}, b - {x});
    }
  }

  /** Distinct naturals below `n` are at most `n` many. */
  lemma Pigeonhole(list: seq<nat>, n: nat)
    requires forall k :: 0 <= k < |list| ==> list[k] < n
    requires forall k, m :: 0 <= k < m < |list| ==> list[k] != list[m]
    ensures |list| <= n
  {
    var s := SetOfDistinct(list);
    SubsetSize(s, Below(n));
  }
}
