/** Bytes at places in a sequence. */
module Places {
  import opened Basics

  /** The bytes stand at p. */
  predicate At(s: seq<Byte>, p: nat, bytes: seq<Byte>) {
    p + |bytes| <= |s| && forall i :: 0 <= i < |bytes| ==> s[p + i] == bytes[i]
  }

  lemma AtParts(s: seq<Byte>, p: nat, a: seq<Byte>, b: seq<Byte>)
    ensures At(s, p, a + b) <==> At(s, p, a) && At(s, p + |a|, b)
  {
    var all := a + b;
    if At(s, p, all) {
      forall i | 0 <= i < |a|
        ensures s[p + i] == a[i]
      {
        assert all[i] == a[i];
      }
      forall i | 0 <= i < |b|
        ensures s[p + |a| + i] == b[i]
      {
        assert s[p + (|a| + i)] == all[|a| + i];
      }
    }
    if At(s, p, a) && At(s, p + |a|, b) {
      forall i | 0 <= i < |all|
        ensures s[p + i] == all[i]
      {
        if i >= |a| {
          assert s[p + |a| + (i - |a|)] == b[i - |a|];
        }
      }
    }
  }

  lemma AtSlice(s: seq<Byte>, p: nat, bytes: seq<Byte>)
    ensures At(s, p, bytes) <==> p + |bytes| <= |s| && s[p..p + |bytes|] == bytes
  {
    if p + |bytes| <= |s| && s[p..p + |bytes|] == bytes {
      forall i | 0 <= i < |bytes|
        ensures s[p + i] == bytes[i]
      {
        assert s[p..p + |bytes|][i] == s[p + i];
      }
    }
  }

  lemma AtFront(bytes: seq<Byte>, rest: seq<Byte>)
    ensures At(bytes + rest, 0, bytes)
  {
  }

  lemma AtInside(s: seq<Byte>, p: nat, bytes: seq<Byte>)
    requires At(s, p, bytes)
    ensures p + |bytes| <= |s|
  {
  }

  /** Bytes that stand in a sequence of their own length are the sequence. */
  lemma AtWhole(s: seq<Byte>, bytes: seq<Byte>)
    ensures At(s, 0, bytes) && |bytes| == |s| <==> s == bytes
  {
    AtSlice(s, 0, bytes);
    assert |bytes| == |s| ==> s[0..0 + |bytes|] == s;
  }
}
