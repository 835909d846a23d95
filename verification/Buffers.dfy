/** Regions of a byte buffer: what stands where, and what a write leaves alone. */
module Buffers {
  import opened TwosComplement

  /** The text t stands at position p of s. */
  predicate Stands(s: seq<byte>, p: nat, t: seq<byte>) {
    p + |t| <= |s| && s[p..p + |t|] == t
  }

  lemma StandsParts(s: seq<byte>, p: nat, a: seq<byte>, b: seq<byte>)
    ensures Stands(s, p, a + b) <==> Stands(s, p, a) && Stands(s, p + |a|, b)
  {
    var t := a + b;
    if p + |t| <= |s| {
      assert s[p..p + |t|] == s[p..p + |a|] + s[p + |a|..p + |a| + |b|];
      if s[p..p + |t|] == t {
        assert s[p..p + |a|] == s[p..p + |t|][..|a|] == a;
        assert s[p + |a|..p + |t|] == s[p..p + |t|][|a|..] == b;
      }
    }
  }

  lemma StandsFirst(s: seq<byte>, p: nat, t: seq<byte>)
    requires Stands(s, p, t) && t != []
    ensures p < |s| && s[p] == t[0]
  {
    assert s[p] == s[p..p + |t|][0];
  }

  /** Nothing outside from..to has changed. */
  ghost predicate Untouched(was: seq<byte>, now: seq<byte>, from: nat, to: nat) {
    from <= to <= |was| == |now| && now[..from] == was[..from] && now[to..] == was[to..]
  }

  lemma UntouchedStep(was: seq<byte>, before: seq<byte>, now: seq<byte>, from: nat, at: nat, to: nat)
    requires Untouched(was, before, from, at) && Untouched(before, now, at, to)
    ensures Untouched(was, now, from, to)
  {
    assert now[..from] == now[..at][..from] == before[..at][..from] == before[..from];
    assert before[to..] == before[at..][to - at..] == was[at..][to - at..] == was[to..];
  }

  /** What stands before a write still stands after it. */
  lemma StandsKept(before: seq<byte>, now: seq<byte>, from: nat, to: nat, p: nat, t: seq<byte>)
    requires Stands(before, p, t) && p + |t| <= from && Untouched(before, now, from, to)
    ensures Stands(now, p, t)
  {
    var e := p + |t|;
    assert now[p..e] == now[..from][p..e] == before[..from][p..e] == before[p..e];
  }
}
