/** Bytes of the pipe and the 32-bit size word that every message header ends with.
    The word is stored little-endian, as on the machines the pipe runs on. */
module PipeBytes {

  type Byte = x: int | 0 <= x < 0x100

  /** memset(.., 255, ..) is what marks free space. */
  const BLANK_BYTE: Byte := 0xFF
  const BLANK_WORD: nat := 0xFFFF_FFFF
  /** Msg::kMaskNotWriting */
  const MASK_NOT_WRITING: nat := 0x8000_0000

  function Encode32(w: nat): (s: seq<Byte>)
    requires w <= 0xFFFF_FFFF
    ensures |s| == 4
  {
    [w % 0x100, w / 0x100 % 0x100, w / 0x100 / 0x100 % 0x100, w / 0x100 / 0x100 / 0x100]
  }

  function Decode32(s: seq<Byte>): (w: nat)
    requires |s| == 4
  {
    (s[0] as int) + 0x100 * (s[1] as int) + 0x1_0000 * (s[2] as int) + 0x100_0000 * (s[3] as int)
  }

  lemma Decode32Encode32(w: nat)
    requires w <= 0xFFFF_FFFF
    ensures Decode32(Encode32(w)) == w
  {
    var a := w / 0x100;
    var b := a / 0x100;
    assert w == 0x100 * a + w % 0x100 && a == 0x100 * b + a % 0x100 && b == 0x100 * (b / 0x100) + b % 0x100;
  }

  function Blanks(n: nat): (s: seq<Byte>)
    ensures |s| == n && forall i :: 0 <= i < n ==> s[i] == BLANK_BYTE
  {
    seq(n, _ => BLANK_BYTE)
  }

  /** Overwrites the bytes of `buf` from `at` on with `data`. */
  function Splice(buf: seq<Byte>, at: nat, data: seq<Byte>): (r: seq<Byte>)
    requires at + |data| <= |buf|
    ensures |r| == |buf| && r[at..at + |data|] == data
    ensures forall i :: 0 <= i < |buf| && !(at <= i < at + |data|) ==> r[i] == buf[i]
  {
    buf[..at] + data + buf[at + |data|..]
  }

  lemma SubSlice(s: seq<Byte>, a: nat, b: nat, c: nat, d: nat)
    requires a <= b <= |s| && c <= d <= b - a
    ensures s[a..b][c..d] == s[a + c..a + d]
  {
    var u, v := s[a..b][c..d], s[a + c..a + d];
    assert forall i :: 0 <= i < d - c ==> u[i] == s[a + c + i] == v[i];
  }

  /** Overwriting the middle part of a block leaves its ends alone. */
  lemma SpliceInside(buf: seq<Byte>, at: nat, h: seq<Byte>, m: seq<Byte>, c: seq<Byte>, m': seq<Byte>)
    requires at + |h| + |m| + |c| <= |buf| && |m| == |m'|
    requires buf[at..at + |h| + |m| + |c|] == h + m + c
    ensures Splice(buf, at + |h|, m')[at..at + |h| + |m| + |c|] == h + m' + c
  {
    var n := |h| + |m| + |c|;
    var a, b := buf[at..at + n], Splice(buf, at + |h|, m')[at..at + n];
    forall i | 0 <= i < n ensures b[i] == (h + m' + c)[i] {
      assert a[i] == buf[at + i];
      if |h| <= i < |h| + |m| {
        assert Splice(buf, at + |h|, m')[at + |h|..at + |h| + |m'|][i - |h|] == m'[i - |h|];
      } else {
        assert b[i] == a[i] == (h + m + c)[i];
      }
    }
  }
}
