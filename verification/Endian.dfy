/**
 Byte order (Helens/endian.h): how a host lays an integer out in memory, what swapping does to it,
 and what the buffer's own byte order makes of it.
 */
module Endian {
  import opened Arith
  import opened Chunks

  datatype Order = Little | Big

  function Pow256(n: nat): (r: nat)
    ensures r > 0
  {
    if n == 0 then 1 else 256 * Pow256(n - 1)
  }

  function LittleBytes(v: nat, n: nat): (r: seq<Byte>)
    ensures |r| == n
  {
    if n == 0 then [] else [v % 256] + LittleBytes(v / 256, n - 1)
  }

  function FromLittle(s: seq<Byte>): (r: nat)
    ensures r < Pow256(|s|)
  {
    if s == [] then 0 else s[0] + 256 * FromLittle(s[1..])
  }

  function Rev(s: seq<Byte>): (r: seq<Byte>)
    ensures |r| == |s| && forall i :: 0 <= i < |s| ==> r[i] == s[|s| - 1 - i]
  {
    seq(|s|, i requires 0 <= i < |s| => s[|s| - 1 - i])
  }

  /** The memory image of an n-byte integer on a host of the given order. */
  function Store(order: Order, v: nat, n: nat): (r: seq<Byte>)
    ensures |r| == n
  {
    if order.Little? then LittleBytes(v, n) else Rev(LittleBytes(v, n))
  }

  function Load(order: Order, s: seq<Byte>): (r: nat)
    ensures r < Pow256(|s|)
  {
    FromLittle(if order.Little? then s else Rev(s))
  }

  /** bswap: the integer with its n bytes in the opposite order. */
  function ByteSwap(v: nat, n: nat): (r: nat)
    ensures r < Pow256(n)
  {
    FromLittle(Rev(LittleBytes(v, n)))
  }

  /** What a fixed-width write puts in the buffer: swap unless the orders agree, then copy. */
  function WriteImage(host: Order, order: Order, v: nat, n: nat): (r: seq<Byte>)
    ensures |r| == n
  {
    Store(host, if order != host then ByteSwap(v, n) else v, n)
  }

  function ReadImage(host: Order, order: Order, s: seq<Byte>): nat {
    var v := Load(host, s);
    if order == host then v else ByteSwap(v, |s|)
  }

  lemma {:induction false} LittleRoundTrip(v: nat, n: nat)
    requires v < Pow256(n)
    ensures FromLittle(LittleBytes(v, n)) == v
  {
    if n > 0 {
      LittleRoundTrip(v / 256, n - 1);
      assert LittleBytes(v, n)[1..] == LittleBytes(v / 256, n - 1);
    }
  }

  lemma {:induction false} LittleOnto(s: seq<Byte>)
    ensures LittleBytes(FromLittle(s), |s|) == s
  {
    if s != [] {
      var v := FromLittle(s);
      assert v % 256 == s[0] && v / 256 == FromLittle(s[1..]);
      LittleOnto(s[1..]);
    }
  }

  /** The bytes of an integer, lowest first, are its base-256 digits. */
  lemma {:induction false} LittleDigit(v: nat, n: nat, i: nat)
    requires i < n
    ensures LittleBytes(v, n)[i] == v / Pow256(i) % 256
  {
    if i > 0 {
      LittleDigit(v / 256, n - 1, i - 1);
      DivDiv(v, 256, Pow256(i - 1));
    }
  }

  /** Which power of 256 byte `i` of an n-byte integer counts, in a given order. */
  lemma StoredDigit(order: Order, v: nat, n: nat, i: nat)
    requires i < n
    ensures Store(order, v, n)[i] == v / Pow256(if order == Little then i else n - 1 - i) % 256
  {
    hide LittleBytes, Pow256;
    LittleDigit(v, n, if order == Little then i else n - 1 - i);
  }

  lemma LoadedDigit(order: Order, s: seq<Byte>, i: nat)
    requires i < |s|
    ensures Load(order, s) / Pow256(if order == Little then i else |s| - 1 - i) % 256 == s[i]
  {
    hide FromLittle, LittleBytes, Pow256;
    var j := if order == Little then i else |s| - 1 - i;
    LittleOnto(if order == Little then s else Rev(s));
    LittleDigit(Load(order, s), |s|, j);
  }

  lemma RevTwice(s: seq<Byte>)
    ensures Rev(Rev(s)) == s
  {}

  /** The bytes written depend on the buffer's order alone, not on the host's. */
  lemma HostIndependent(host: Order, order: Order, v: nat, n: nat)
    requires v < Pow256(n)
    ensures WriteImage(host, order, v, n) == Store(order, v, n)
  {
    hide LittleBytes, FromLittle, Rev;
    if host != order {
      LittleOnto(Rev(LittleBytes(v, n)));
      RevTwice(LittleBytes(v, n));
    }
  }

  lemma HostIndependentRead(host: Order, order: Order, s: seq<Byte>)
    ensures ReadImage(host, order, s) == Load(order, s)
  {
    hide LittleBytes, FromLittle, Rev;
    LittleOnto(s);
    LittleOnto(Rev(s));
    RevTwice(s);
  }

  lemma StoreLoad(order: Order, v: nat, n: nat)
    requires v < Pow256(n)
    ensures Load(order, Store(order, v, n)) == v
  {
    hide LittleBytes, FromLittle, Rev;
    LittleRoundTrip(v, n);
    RevTwice(LittleBytes(v, n));
  }

  /** Swapping twice changes nothing. */
  lemma SwapTwice(v: nat, n: nat)
    requires v < Pow256(n)
    ensures ByteSwap(ByteSwap(v, n), n) == v
  {
    hide LittleBytes, FromLittle, Rev;
    LittleOnto(Rev(LittleBytes(v, n)));
    RevTwice(LittleBytes(v, n));
    LittleRoundTrip(v, n);
  }
}
