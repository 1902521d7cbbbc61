/** The ones'-complement style checksum of the control plane
    (unix-domain-socket-control-plane/common/common.h). */
module Checksum {
  import opened Bytes

  const HEADER_SIZE: nat := 24
  const MAX_PAYLOAD: nat := 2048

  function Sum(s: seq<byte>): (n: nat)
    decreases |s|
  {
    if s == [] then 0 else s[0] as nat + Sum(s[1..])
  }

  /** What the folding loop leaves of a sum, said without a loop: zero stays zero, anything else
      becomes its residue modulo 65535 in the range 1 to 65535. */
  function Folded(sum: nat): (r: nat)
    ensures r <= 0xFFFF
  {
    if sum == 0 then 0 else (sum - 1) % 0xFFFF + 1
  }

  function Checksum(header: seq<byte>, payload: seq<byte>): (c: nat)
    ensures c < 0x1_0000_0000
  {
    0xFFFF_FFFF - Folded(Sum(header) + Sum(payload))
  }

  lemma {:induction false} SumAppend(s: seq<byte>, t: seq<byte>)
    ensures Sum(s + t) == Sum(s) + Sum(t)
    decreases |s|
  {
    if s == [] {
      assert s + t == t;
    } else {
      assert (s + t)[1..] == s[1..] + t;
      SumAppend(s[1..], t);
    }
  }

  lemma {:induction false} SumBound(s: seq<byte>)
    ensures Sum(s) <= 255 * |s|
    decreases |s|
  {
    if s != [] { SumBound(s[1..]); }
  }

  /** One turn of the folding loop keeps the residue and makes the sum smaller, but not zero. */
  lemma FoldStep(sum: nat)
    requires sum >= 0x1_0000
    ensures var next := sum % 0x1_0000 + sum / 0x1_0000; 0 < next < sum && Folded(next) == Folded(sum)
  {
    var low, high := sum % 0x1_0000, sum / 0x1_0000;
    assert sum == high * 0x1_0000 + low;
    var next := low + high;
    assert sum - 1 == (next - 1) + high * 0xFFFF;
  }

  /** The three loops of `calculate_checksum`; the 32-bit sum cannot wrap. */
  method Calculate(header: array<byte>, message: array<byte>, length: int) returns (c: nat)
    requires header.Length == HEADER_SIZE && message.Length == MAX_PAYLOAD
    ensures c == Checksum(header[..], message[..if length < 0 then 0 else Min(length, MAX_PAYLOAD)])
  {
    var sum: nat := 0;
    var i := 0;
    while i < HEADER_SIZE
      invariant 0 <= i <= HEADER_SIZE && sum == Sum(header[..i])
    {
      SumAppend(header[..i], [header[i]]);
      assert header[..i + 1] == header[..i] + [header[i]];
      sum := sum + header[i] as nat;
      i := i + 1;
    }
    assert header[..i] == header[..];
    i := 0;
    while i < length && i < MAX_PAYLOAD
      invariant 0 <= i <= MAX_PAYLOAD && (i <= length || i == 0) && sum == Sum(header[..]) + Sum(message[..i])
      decreases MAX_PAYLOAD - i
    {
      SumAppend(message[..i], [message[i]]);
      assert message[..i + 1] == message[..i] + [message[i]];
      sum := sum + message[i] as nat;
      i := i + 1;
    }
    ghost var total: nat := sum;
    SumBound(header[..]);
    SumBound(message[..i]);
    assert total < 0x1_0000_0000;
    while sum / 0x1_0000 != 0
      invariant Folded(sum) == Folded(total)
      decreases sum
    {
      FoldStep(sum);
      sum := sum % 0x1_0000 + sum / 0x1_0000;
    }
    c := 0xFFFF_FFFF - sum;
  }

  /** Two frames have the same checksum exactly when their byte sums agree modulo 65535 and neither
      or both of the sums are zero. */
  lemma SameChecksum(h: seq<byte>, p: seq<byte>, h': seq<byte>, p': seq<byte>)
    ensures var x, y := Sum(h) + Sum(p), Sum(h') + Sum(p');
            Checksum(h, p) == Checksum(h', p') <==> x % 0xFFFF == y % 0xFFFF && (x == 0 <==> y == 0)
  {
    hide Folded, Sum;
    FoldedSame(Sum(h) + Sum(p), Sum(h') + Sum(p'));
  }

  lemma FoldedSame(x: nat, y: nat)
    ensures Folded(x) == Folded(y) <==> x % 0xFFFF == y % 0xFFFF && (x == 0 <==> y == 0)
  {
    FoldedResidue(x);
    FoldedResidue(y);
    if x > 0 && y > 0 && x % 0xFFFF == y % 0xFFFF {
      PredecessorResidue(x);
      PredecessorResidue(y);
    }
  }

  lemma PredecessorResidue(x: nat)
    requires x > 0
    ensures (x - 1) % 0xFFFF == if x % 0xFFFF == 0 then 0xFFFE else x % 0xFFFF - 1
  {
  }

  lemma FoldedResidue(sum: nat)
    ensures Folded(sum) % 0xFFFF == sum % 0xFFFF && (Folded(sum) == 0 <==> sum == 0)
  {
    if sum > 0 { PredecessorResidue(sum); }
  }

  lemma SumUpdate(s: seq<byte>, k: nat, b: byte)
    requires k < |s|
    ensures Sum(s[k := b]) == Sum(s) - s[k] as int + b as int
  {
    assert s == s[..k] + ([s[k]] + s[k + 1..]) && s[k := b] == s[..k] + ([b] + s[k + 1..]);
    SumAppend(s[..k], [s[k]] + s[k + 1..]);
    SumAppend(s[..k], [b] + s[k + 1..]);
    assert ([s[k]] + s[k + 1..])[1..] == s[k + 1..] && ([b] + s[k + 1..])[1..] == s[k + 1..];
  }

  /** Changing any one payload byte is always detected. */
  lemma ByteChangeDetected(h: seq<byte>, p: seq<byte>, k: nat, b: byte)
    requires k < |p| && b != p[k]
    ensures Checksum(h, p[k := b]) != Checksum(h, p)
  {
    SumUpdate(p, k, b);
    SameChecksum(h, p, h, p[k := b]);
  }

  lemma {:induction false} SumPermuted(p: seq<byte>, q: seq<byte>)
    requires multiset(p) == multiset(q)
    ensures Sum(p) == Sum(q)
    decreases |p|
  {
    if p == [] {
      assert |multiset(q)| == 0;
    } else {
      assert p[0] in multiset(q);
      var k :| 0 <= k < |q| && q[k] == p[0];
      var rest := q[..k] + q[k + 1..];
      RestPermuted(p, q, k);
      SumPermuted(p[1..], rest);
      SumAppend(q[..k], [q[k]] + q[k + 1..]);
      SumAppend(q[..k], q[k + 1..]);
      assert q == q[..k] + ([q[k]] + q[k + 1..]);
      assert ([q[k]] + q[k + 1..])[1..] == q[k + 1..];
    }
  }

  lemma RestPermuted(p: seq<byte>, q: seq<byte>, k: nat)
    requires p != [] && k < |q| && q[k] == p[0] && multiset(p) == multiset(q)
    ensures multiset(p[1..]) == multiset(q[..k] + q[k + 1..])
  {
    assert q == q[..k] + [q[k]] + q[k + 1..] && p == [p[0]] + p[1..];
    assert multiset(q) == multiset{q[k]} + multiset(q[..k] + q[k + 1..]);
    assert multiset(p) == multiset{p[0]} + multiset(p[1..]);
    Cancel(p[0], multiset(p[1..]), multiset(q[..k] + q[k + 1..]));
  }

  lemma Cancel(b: byte, x: multiset<byte>, y: multiset<byte>)
    requires multiset{b} + x == multiset{b} + y
    ensures x == y
  {
    forall c: byte ensures x[c] == y[c] { assert (multiset{b} + x)[c] == (multiset{b} + y)[c]; }
  }

  /** Reordering payload bytes is never detected. */
  lemma PermutationUndetected(h: seq<byte>, p: seq<byte>, q: seq<byte>)
    requires multiset(p) == multiset(q)
    ensures Checksum(h, p) == Checksum(h, q)
  {
    SumPermuted(p, q);
  }
}
