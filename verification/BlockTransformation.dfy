/**
 cryptlib.cpp: a block cipher as a function on blocks, and its use in a chain, in which each block
 is added to the result for the block before it.
 */
module BlockTransformations {
  import opened Integers
  import opened Bytes

  type Cipher = seq<bv8> -> seq<bv8>

  ghost predicate KeepsSize(E: Cipher, x: seq<bv8>) {
    |E(x)| == |x|
  }

  ghost predicate OnBlocks(E: Cipher) {
    forall x :: KeepsSize(E, x)
  }

  function Zeros(n: nat): (s: seq<bv8>)
    ensures |s| == n
  {
    seq(n, _ => 0)
  }

  /** The chaining value after the whole blocks of `data`. */
  function Chain(E: Cipher, b: nat, c: seq<bv8>, data: seq<bv8>): seq<bv8>
    requires b > 0 && |c| == b && OnBlocks(E)
    ensures |Chain(E, b, c, data)| == b
    decreases |data|
  {
    if |data| < b then c
    else
      assert KeepsSize(E, XorBytes(c, data[..b]));
      Chain(E, b, E(XorBytes(c, data[..b])), data[b..])
  }

  lemma BlocksLeft(n: nat, b: nat)
    requires b > 0 && n > 0 && n % b == 0
    ensures n >= b && (n - b) % b == 0
  {
    if n < b {
      DivModUnique(n, b, 0, n);
    }
    DivModUnique(n - b, b, n / b - 1, 0);
  }

  lemma {:induction false} ChainConcat(E: Cipher, b: nat, c: seq<bv8>, full: seq<bv8>, more: seq<bv8>)
    requires b > 0 && |c| == b && OnBlocks(E) && |full| % b == 0
    ensures Chain(E, b, c, full + more) == Chain(E, b, Chain(E, b, c, full), more)
    decreases |full|
  {
    if full == [] {
      assert full + more == more;
    } else {
      BlocksLeft(|full|, b);
      var d := XorBytes(c, full[..b]);
      assert KeepsSize(E, d);
      ChainConcat(E, b, E(d), full[b..], more);
      assert (full + more)[..b] == full[..b] && (full + more)[b..] == full[b..] + more;
    }
  }

  lemma ChainNothing(E: Cipher, b: nat, c: seq<bv8>)
    requires b > 0 && |c| == b && OnBlocks(E)
    ensures Chain(E, b, c, []) == c && 0 % b == 0
  {
    DivModUnique(0, b, 0, 0);
  }

  lemma ChainOne(E: Cipher, b: nat, c: seq<bv8>, data: seq<bv8>)
    requires b > 0 && |c| == b && OnBlocks(E) && |data| == b
    ensures Chain(E, b, c, data) == E(XorBytes(c, data))
  {
    assert KeepsSize(E, XorBytes(c, data));
    assert data[..b] == data && data[b..] == [];
  }

  /** A block with the bytes of `s` added from `off` on. */
  function XorAt(c: seq<bv8>, off: nat, s: seq<bv8>): (r: seq<bv8>)
    requires off + |s| <= |c|
    ensures |r| == |c|
  {
    c[..off] + XorBytes(c[off..off + |s|], s) + c[off + |s|..]
  }

  lemma XorAtAt(c: seq<bv8>, off: nat, s: seq<bv8>, i: nat)
    requires off + |s| <= |c| && i < |c|
    ensures XorAt(c, off, s)[i] == if off <= i < off + |s| then XorByte(c[i], s[i - off]) else c[i]
  {
  }

  lemma XorAtAgain(c: seq<bv8>, s: seq<bv8>, t: seq<bv8>)
    requires |s| + |t| <= |c|
    ensures XorAt(XorAt(c, 0, s), |s|, t) == XorAt(c, 0, s + t)
  {
    hide XorAt, XorByte;
    var l, r := XorAt(XorAt(c, 0, s), |s|, t), XorAt(c, 0, s + t);
    forall i | 0 <= i < |c|
      ensures l[i] == r[i]
    {
      XorAtAt(XorAt(c, 0, s), |s|, t, i);
      XorAtAt(c, 0, s, i);
      XorAtAt(c, 0, s + t, i);
    }
  }

  lemma XorAtWhole(c: seq<bv8>, s: seq<bv8>)
    ensures |s| == |c| ==> XorAt(c, 0, s) == XorBytes(c, s)
    ensures XorAt(c, 0, []) == c
  {
    hide XorByte;
  }

  ghost predicate Untouched(t: seq<bv8>, u: seq<bv8>, off: nat, length: nat) {
    |t| == |u| && forall i :: 0 <= i < |t| && !(off <= i < off + length) ==> t[i] == u[i]
  }

  lemma XorAtFront(t: seq<bv8>, off: nat, s: seq<bv8>, b: nat)
    requires off + |s| <= b <= |t|
    ensures XorAt(t, off, s)[..b] == XorAt(t[..b], off, s) && XorAt(t, off, s)[b..] == t[b..]
  {
    assert t[..b][off..off + |s|] == t[off..off + |s|];
  }

  method XorInto(a: array<bv8>, off: nat, s: seq<bv8>)
    requires off + |s| <= a.Length
    modifies a
    ensures a[..] == XorAt(old(a[..]), off, s)
  {
    hide XorAt, XorByte;
    ghost var t := a[..];
    for i := 0 to |s|
      invariant forall j :: 0 <= j < a.Length ==> a[j] == if off <= j < off + i then XorByte(t[j], s[j - off]) else t[j]
    {
      a[off + i] := XorByte(a[off + i], s[i]);
    }
    forall j | 0 <= j < a.Length
      ensures a[j] == XorAt(t, off, s)[j]
    {
      XorAtAt(t, off, s, j);
    }
  }

  /** Sends the first block of `a` through the cipher, and puts the result at `off`. */
  method ProcessBlock(E: Cipher, a: array<bv8>, b: nat, off: nat)
    requires OnBlocks(E) && b <= a.Length && off + b <= a.Length
    modifies a
    ensures a[off..off + b] == E(old(a[..b]))
    ensures Untouched(old(a[..]), a[..], off, b)
    ensures off == 0 ==> a[..b] == E(old(a[..b])) && a[b..] == old(a[b..])
  {
    assert KeepsSize(E, a[..b]);
    var r := E(a[..b]);
    forall i | 0 <= i < b {
      a[off + i] := r[i];
    }
  }

  /** The whole blocks of `xorBlocks`, each added to the block at the front of `a` before that is enciphered. */
  method AdvancedProcessBlocks(E: Cipher, a: array<bv8>, b: nat, xorBlocks: seq<bv8>) returns (length: nat)
    requires OnBlocks(E) && 0 < b <= a.Length
    modifies a
    ensures length < b && length <= |xorBlocks| && (|xorBlocks| - length) % b == 0
    ensures a[..b] == Chain(E, b, old(a[..b]), xorBlocks[..|xorBlocks| - length]) && a[b..] == old(a[b..])
  {
    hide Chain, XorAt, OnBlocks;
    length := |xorBlocks|;
    ghost var done := 0;
    ChainNothing(E, b, a[..b]);
    assert xorBlocks[..0] == [];
    while length >= b
      invariant done == |xorBlocks| - length && 0 <= done <= |xorBlocks| && done % b == 0
      invariant a[..b] == Chain(E, b, old(a[..b]), xorBlocks[..done]) && a[b..] == old(a[b..])
    {
      var k := |xorBlocks| - length;
      ghost var c := a[..b];
      var block := xorBlocks[k..k + b];
      ghost var t := a[..];
      XorInto(a, 0, block);
      XorAtFront(t, 0, block, b);
      XorAtWhole(c, block);
      ProcessBlock(E, a, b, 0);
      ChainOne(E, b, c, block);
      ChainConcat(E, b, old(a[..b]), xorBlocks[..done], block);
      assert xorBlocks[..done] + block == xorBlocks[..done + b];
      AddBlock(done, b);
      done := done + b;
      length := length - b;
    }
  }
}
