/** Small shared vocabulary: optional values and bounds of finite sets. */
module Common {
  datatype Option<+T> = None | Some(value: T)

  predicate InSpan(i: nat, base: nat, size: nat) {
    base <= i < base + size
  }

  /** The half-open interval [base, base + size). */
  function Span(base: nat, size: nat): (r: set<nat>) {
    set i: nat {:trigger InSpan(i, base, size)} | base <= i < base + size && InSpan(i, base, size)
  }

  /** Every finite set of naturals has a strict upper bound. */
  lemma UpperBound(s: set<nat>) returns (b: nat)
    ensures forall x | x in s :: x < b
  {
    if s == {} {
      b := 0;
    } else {
      var x :| x in s;
      var c := UpperBound(s - {x});
      b := if x < c then c else x + 1;
      forall y | y in s ensures y < b {
        if y != x { assert y in s - {x}; }
      }
    }
  }

  lemma SpanSize(base: nat, size: nat)
    ensures |Span(base, size)| == size
  {
    if size == 0 {
      assert Span(base, size) == {};
    } else {
      SpanSize(base, size - 1);
      assert Span(base, size) == Span(base, size - 1) + {base + size - 1};
    }
  }

  lemma SubsetSize<T>(a: set<T>, b: set<T>)
    requires a <= b
    ensures |a| <= |b|
    ensures |a| == |b| ==> a == b
  {
    assert b == a + (b - a);
    assert |b| == |a| + |b - a|;
  }

  /** A MAC address; the SDK keeps the octets in reverse order. */
  datatype Mac = Mac(b0: bv8, b1: bv8, b2: bv8, b3: bv8, b4: bv8, b5: bv8)

  /** ops_xp_mac_copy_and_reverse() */
  function Reversed(m: Mac): (r: Mac)
    ensures r.b0 == m.b5 && r.b5 == m.b0
  {
    Mac(m.b5, m.b4, m.b3, m.b2, m.b1, m.b0)
  }
}

/** Lists without repeats, as the linked lists of the switch code are used. */
module Lists {
  function SetOf<T>(s: seq<T>): (r: set<T>) {
    set x | x in s
  }

  ghost predicate NoDup<T>(s: seq<T>) {
    forall i, j | 0 <= i < j < |s| :: s[i] != s[j]
  }

  /** The list without the first occurrence of `x`. */
  function Without<T(==)>(s: seq<T>, x: T): (r: seq<T>) {
    if s == [] then [] else if s[0] == x then s[1..] else [s[0]] + Without(s[1..], x)
  }

  /** Removing the first occurrence from a list without repeats removes the element. */
  lemma {:induction false} WithoutKeeps<T>(s: seq<T>, x: T)
    requires NoDup(s)
    ensures NoDup(Without(s, x)) && SetOf(Without(s, x)) == SetOf(s) - {x}
  {
    if s != [] {
      var rest := s[1..];
      assert s == [s[0]] + rest;
      assert s[0] !in rest;
      assert SetOf(s) == {s[0]} + SetOf(rest);
      if s[0] != x {
        WithoutKeeps(rest, x);
        assert s[0] !in SetOf(Without(rest, x));
        assert SetOf([s[0]] + Without(rest, x)) == {s[0]} + SetOf(Without(rest, x));
      }
    }
  }

  lemma LaterDiffer<T>(s: seq<T>, i: nat)
    requires NoDup(s) && i < |s|
    ensures forall k | i < k < |s| :: s[k] != s[i]
  {
  }

  lemma NoDupSize<T>(s: seq<T>)
    requires NoDup(s)
    ensures |SetOf(s)| == |s|
  {
    if s != [] {
      var n := |s| - 1;
      NoDupSize(s[..n]);
      assert s == s[..n] + [s[n]];
      assert SetOf(s) == SetOf(s[..n]) + {s[n]};
    } else {
      assert SetOf(s) == {};
    }
  }

  lemma SetSize<T>(s: seq<T>)
    ensures |SetOf(s)| <= |s|
  {
    if s != [] {
      var n := |s| - 1;
      SetSize(s[..n]);
      assert s == s[..n] + [s[n]];
      assert SetOf(s) == SetOf(s[..n]) + {s[n]};
    } else {
      assert SetOf(s) == {};
    }
  }
}
