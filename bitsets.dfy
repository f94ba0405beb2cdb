/** java.util.BitSet as the set of the positions of its set bits, and the
    '0'/'1' strings the presence matrix stores them as. */
module BitSets {

  /** BitSet.length(): one more than the highest set bit, 0 when none is. */
  function Length(p: set<nat>): (n: nat)
    ensures forall i :: i in p ==> i < n
    ensures n > 0 ==> n - 1 in p
  {
    if p == {} then 0
    else
      HasMaximum(p);
      var x :| x in p && forall y :: y in p ==> y <= x;
      x + 1
  }

  lemma {:induction false} HasMaximum(p: set<nat>)
    requires p != {}
    ensures exists x :: x in p && forall y :: y in p ==> y <= x
    decreases p
  {
    var z :| z in p;
    if p - {z} != {} {
      HasMaximum(p - {z});
      var x :| x in p - {z} && forall y :: y in p - {z} ==> y <= x;
      var m := if x < z then z else x;
      forall y | y in p ensures y <= m {
        if y != z {
          assert y in p - {z};
        }
      }
      assert m in p;
    } else {
      forall y | y in p ensures y <= z {
        assert y !in p - {z};
      }
    }
  }

  /** The two properties of Length determine it. */
  lemma LengthUnique(p: set<nat>, n: nat)
    requires forall i :: i in p ==> i < n
    requires n > 0 ==> n - 1 in p
    ensures n == Length(p)
  {
  }

  /** The matrix file's presence column: character i is '1' exactly when
      bit i is set, and the string stops at the highest set bit. */
  function BitString(p: set<nat>): (s: string)
    ensures |s| == Length(p)
  {
    seq(Length(p), i requires 0 <= i < Length(p) => if i in p then '1' else '0')
  }

  /** The bits a presence column sets: the positions of its '1's. */
  function Presence(s: string): (p: set<nat>)
    ensures forall i: nat :: i in p <==> i < |s| && s[i] == '1'
  {
    set i: nat | i < |s| && s[i] == '1'
  }

  /** Reading back a written presence column gives the same bits, and the
      column is empty only for an empty bit set. */
  lemma PresenceOfBitString(p: set<nat>)
    ensures Presence(BitString(p)) == p
    ensures BitString(p) == [] <==> p == {}
    ensures forall i :: 0 <= i < |BitString(p)| ==> BitString(p)[i] in "01"
  {
    var s := BitString(p);
    forall i | i in p ensures i in Presence(s) {
      assert i < Length(p);
    }
    if p != {} {
      var x :| x in p;
      assert x < |s|;
    }
  }

  /** The inner loop of reduceMatrix: count the set bits below length(). */
  method Cardinality(presence: set<nat>) returns (count: nat)
    ensures count == |presence|
  {
    count := 0;
    var n := Length(presence);
    for i := 0 to n
      invariant count == |set j: nat | j in presence && j < i|
    {
      ghost var below := set j: nat | j in presence && j < i;
      if i in presence {
        assert (set j: nat | j in presence && j < i + 1) == below + {i};
        count := count + 1;
      } else {
        assert (set j: nat | j in presence && j < i + 1) == below;
      }
    }
    assert (set j: nat | j in presence && j < n) == presence;
  }

  /** The loop that turns a presence column back into bits. */
  method ParsePresence(a: string) returns (presence: set<nat>)
    ensures presence == Presence(a)
  {
    presence := {};
    for i := 0 to |a|
      invariant presence == set j: nat | j < i && a[j] == '1'
    {
      if a[i] == '1' {
        presence := presence + {i};
      }
    }
  }

  /** The loop that writes a presence column. */
  method WriteBits(presence: set<nat>) returns (s: string)
    ensures s == BitString(presence)
  {
    s := [];
    var n := Length(presence);
    for i := 0 to n
      invariant |s| == i
      invariant forall j :: 0 <= j < i ==> s[j] == if j in presence then '1' else '0'
    {
      if i in presence {
        s := s + "1";
      } else {
        s := s + "0";
      }
    }
  }
}
