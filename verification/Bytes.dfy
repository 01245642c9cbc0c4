/** Little-endian integers in guest memory. */
module Bytes {
  import opened Results

  function Pow256(n: nat): (p: nat)
    ensures p > 0
  {
    if n == 0 then 1 else 256 * Pow256(n - 1)
  }

  function Le(x: nat, n: nat): (s: seq<Byte>)
    ensures |s| == n
    decreases n
  {
    if n == 0 then [] else [x % 256] + Le(x / 256, n - 1)
  }

  function FromLe(s: seq<Byte>): nat {
    if s == [] then 0 else s[0] + 256 * FromLe(s[1..])
  }

  /** What is written little-endian reads back. */
  lemma {:induction false} LeReadsBack(x: nat, n: nat)
    requires x < Pow256(n)
    ensures FromLe(Le(x, n)) == x
    decreases n
  {
    if n > 0 {
      assert x / 256 < Pow256(n - 1);
      LeReadsBack(x / 256, n - 1);
      assert Le(x, n)[1..] == Le(x / 256, n - 1);
    }
  }

  lemma {:induction false} FromLeBound(s: seq<Byte>)
    ensures FromLe(s) < Pow256(|s|)
  {
    if s != [] {
      FromLeBound(s[1..]);
    }
  }

  /** byte_source_le32. */
  function Word(s: seq<Byte>, at: nat): (w: nat)
    requires at + 4 <= |s|
    ensures w < 0x1_0000_0000
  {
    assert Pow256(4) == 256 * Pow256(3) && Pow256(3) == 256 * Pow256(2) && Pow256(2) == 65536;
    FromLeBound(s[at..at + 4]);
    FromLe(s[at..at + 4])
  }

  /** The first byte is the least significant. */
  lemma WordIs(s: seq<Byte>, at: nat)
    requires at + 4 <= |s|
    ensures var b: seq<nat> := [s[at], s[at + 1], s[at + 2], s[at + 3]];
            Word(s, at) == b[0] + 0x100 * b[1] + 0x1_0000 * b[2] + 0x100_0000 * b[3]
  {
    FromLeUnfolds(s[at..at + 4], 4);
    FromLeUnfolds(s[at + 1..at + 4], 3);
    FromLeUnfolds(s[at + 2..at + 4], 2);
    FromLeUnfolds(s[at + 3..at + 4], 1);
    assert s[at..at + 4][1..] == s[at + 1..at + 4] && s[at + 1..at + 4][1..] == s[at + 2..at + 4];
    assert s[at + 2..at + 4][1..] == s[at + 3..at + 4] && s[at + 3..at + 4][1..] == [];
  }

  lemma FromLeUnfolds(s: seq<Byte>, n: nat)
    requires |s| == n > 0
    ensures FromLe(s) == s[0] + 256 * FromLe(s[1..])
    ensures FromLe([]) == 0
  {
  }
}
