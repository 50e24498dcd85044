/** Sums of bytes, the raw material of the check characters of Kermit packets and S-records. */
module ByteSums {
  import opened CTypes

  ghost function Sum(s: seq<byte>): nat {
    if s == [] then 0 else Sum(s[..|s| - 1]) + s[|s| - 1]
  }

  lemma {:induction false} SumSnoc(s: seq<byte>, c: byte)
    ensures Sum(s + [c]) == Sum(s) + c
  {
    assert (s + [c])[..|s|] == s;
  }

  lemma {:induction false} SumFirst(s: seq<byte>)
    requires s != []
    ensures Sum(s) == s[0] + Sum(s[1..])
    decreases |s|
  {
    var n := |s| - 1;
    if n == 0 {
      assert s == [] + [s[0]];
      SumSnoc([], s[0]);
    } else {
      SumFirst(s[..n]);
      assert s[..n][1..] + [s[n]] == s[1..];
      SumSnoc(s[..n][1..], s[n]);
    }
  }

  lemma {:induction false} SumConcat(a: seq<byte>, b: seq<byte>)
    ensures Sum(a + b) == Sum(a) + Sum(b)
  {
    if b == [] {
      assert a + b == a;
    } else {
      SumConcat(a, b[..|b| - 1]);
      assert (a + b)[..|a + b| - 1] == a + b[..|b| - 1];
    }
  }
}
