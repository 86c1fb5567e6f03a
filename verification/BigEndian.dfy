/** Numbers as octets, most significant first. */
module BigEndian {
  import opened Common

  function Pow256(n: nat): (p: nat)
    ensures p > 0
  {
    if n == 0 then 1 else 256 * Pow256(n - 1)
  }

  /** The number that s spells. */
  function Number(s: seq<byte>): nat {
    if s == [] then 0 else 256 * Number(s[..|s| - 1]) + s[|s| - 1]
  }

  /** The last `width` octets of n. */
  function Octets(n: nat, width: nat): (s: seq<byte>)
    ensures |s| == width
  {
    if width == 0 then [] else Octets(n / 256, width - 1) + [n % 256]
  }

  lemma {:induction false} OctetsRoundTrip(n: nat, width: nat)
    requires n < Pow256(width)
    ensures Number(Octets(n, width)) == n
  {
    if width > 0 {
      OctetsRoundTrip(n / 256, width - 1);
      assert Octets(n, width)[..width - 1] == Octets(n / 256, width - 1);
    }
  }

  lemma {:induction false} NumberFront(d: byte, s: seq<byte>)
    ensures Number([d] + s) == d * Pow256(|s|) + Number(s)
  {
    if s == [] {
      assert [d] + s == [d];
      assert [d][..0] == [];
    } else {
      NumberFront(d, s[..|s| - 1]);
      assert ([d] + s)[..|s|] == [d] + s[..|s| - 1];
      assert Number([d] + s) == 256 * (d * Pow256(|s| - 1) + Number(s[..|s| - 1])) + s[|s| - 1];
    }
  }

  lemma {:induction false} NumberIsBelow(s: seq<byte>)
    ensures Number(s) < Pow256(|s|)
  {
    if s != [] {
      NumberIsBelow(s[..|s| - 1]);
    }
  }

  lemma {:induction false} NumberInjective(a: seq<byte>, b: seq<byte>)
    requires |a| == |b| && Number(a) == Number(b)
    ensures a == b
  {
    if a != [] {
      NumberInjective(a[..|a| - 1], b[..|b| - 1]);
      assert a == a[..|a| - 1] + [a[|a| - 1]] && b == b[..|b| - 1] + [b[|b| - 1]];
    }
  }
}
