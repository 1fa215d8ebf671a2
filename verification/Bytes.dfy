// Bytes, and little-endian 32-bit words in a run of them.

module Bytes {
  type byte = x: nat | x < 256

  const WORD: nat := 0x1_0000_0000

  function FromBytes(b0: nat, b1: nat, b2: nat, b3: nat): nat {
    b0 + 0x100 * b1 + 0x1_0000 * b2 + 0x100_0000 * b3
  }

  // The k-th word.
  function GetWord(s: seq<byte>, k: nat): nat
    requires 4 * k + 4 <= |s|
  {
    FromBytes(s[4 * k], s[4 * k + 1], s[4 * k + 2], s[4 * k + 3])
  }

  function PutWord(s: seq<byte>, k: nat, v: nat): (r: seq<byte>)
    requires 4 * k + 4 <= |s| && v < WORD
    ensures |r| == |s|
  {
    s[4 * k := v % 0x100][4 * k + 1 := v / 0x100 % 0x100][4 * k + 2 := v / 0x1_0000 % 0x100][4 * k + 3 := v / 0x100_0000]
  }

  lemma WordOfBytes(v: nat)
    requires v < WORD
    ensures FromBytes(v % 0x100, v / 0x100 % 0x100, v / 0x1_0000 % 0x100, v / 0x100_0000) == v
  {
    var x := v / 0x100;
    var y := x / 0x100;
    assert v / 0x1_0000 == y;
    assert v / 0x100_0000 == y / 0x100;
  }

  // A word that was stored is read back, and no other word has changed.
  lemma PutWordAt(s: seq<byte>, k: nat, v: nat, j: nat)
    requires 4 * k + 4 <= |s| && v < WORD && 4 * j + 4 <= |s|
    ensures GetWord(PutWord(s, k, v), j) == if j == k then v else GetWord(s, j)
  {
    WordOfBytes(v);
  }

  lemma ZeroWordAt(s: seq<byte>, k: nat)
    requires 4 * k + 4 <= |s| && forall i | 0 <= i < |s| :: s[i] == 0
    ensures GetWord(s, k) == 0
  {
  }

  // The number these bytes stand for, the lowest first.
  function LittleEndian(b: seq<byte>): nat {
    if b == [] then 0
    else
      var low: nat := b[0];
      low + 256 * LittleEndian(b[1..])
  }

  lemma FourBytes(b: seq<byte>)
    requires |b| == 4
    ensures LittleEndian(b) == FromBytes(b[0], b[1], b[2], b[3])
  {
    assert b[1..][1..] == b[2..] && b[2..][1..] == b[3..] && b[3..][1..] == [];
    OneByte(b[3..]);
    OneByte(b[2..]);
    OneByte(b[1..]);
    OneByte(b);
  }

  lemma OneByte(b: seq<byte>)
    requires b != []
    ensures var low: nat := b[0]; LittleEndian(b) == low + 256 * LittleEndian(b[1..]) && LittleEndian([]) == 0
  {
  }

  lemma GetWordIs(s: seq<byte>, k: nat)
    requires 4 * k + 4 <= |s|
    ensures GetWord(s, k) == LittleEndian(s[4 * k..4 * k + 4])
  {
    FourBytes(s[4 * k..4 * k + 4]);
  }

  lemma TwoParts(a: seq<byte>, b: seq<byte>)
    requires |a| == 4
    ensures LittleEndian(a + b) == LittleEndian(a) + WORD * LittleEndian(b)
  {
    hide LittleEndian;
    var s := a + b;
    assert s[1..] == a[1..] + b && (a[1..] + b)[1..] == a[2..] + b && (a[2..] + b)[1..] == a[3..] + b && (a[3..] + b)[1..] == b;
    OneByte(a[3..] + b);
    OneByte(a[2..] + b);
    OneByte(a[1..] + b);
    OneByte(s);
    FourBytes(a);
  }
}
