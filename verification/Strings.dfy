/** NUL-terminated strings and byte moves (lolibc/string.c). Buffers are byte arrays; a string that is
    only read is the sequence of bytes from its pointer on, NUL included. */
module Strings {
  import opened Bits

  const MAX_STR_LEN := 1024

  /** The string a pointer denotes: the bytes before the first NUL. */
  function CStr(s: seq<byte>): (r: seq<byte>)
    ensures |r| <= |s| && r == s[..|r|] && 0 !in r && (|r| < |s| ==> s[|r|] == 0)
  {
    if s == [] || s[0] == 0 then [] else [s[0]] + CStr(s[1..])
  }

  lemma {:induction false} CStrIs(s: seq<byte>, k: nat)
    requires k < |s| && 0 !in s[..k] && s[k] == 0
    ensures CStr(s) == s[..k]
  {
    if k > 0 {
      assert s[0] in s[..k];
      assert s[1..][..k - 1] == s[..k][1..];
      CStrIs(s[1..], k - 1);
      assert s[..k] == [s[0]] + s[1..][..k - 1];
    }
  }

  /** A char, which is signed. */
  function Signed(b: byte): (r: int)
    ensures -128 <= r < 128 && (r - b) % 256 == 0
  {
    if b < 128 then b else b - 256
  }

  /** Where strncmp stops: at the first difference, at a NUL, or at character n (character 1 for n = 0). */
  ghost predicate StopsAt(s1: seq<byte>, s2: seq<byte>, n: nat, k: nat)
    requires 0 in s1 && 0 in s2
  {
    && k < |s1| && k < |s2| && k <= |CStr(s1)| && k <= |CStr(s2)| && s1[..k] == s2[..k]
    && (s1[k] != s2[k] || s1[k] == 0 || k + 1 >= n) && (k == 0 || k < n)
  }

  /** strncmp: the difference of the two characters where it stops. */
  method StrNCmp(s1: seq<byte>, s2: seq<byte>, n: nat) returns (r: int)
    requires 0 in s1 && 0 in s2
    ensures exists k: nat :: StopsAt(s1, s2, n, k) && r == Signed(s1[k]) - Signed(s2[k])
  {
    var i, m := 0, n;
    while s1[i] != 0 && s1[i] == s2[i] && m > 1
      invariant i <= |CStr(s1)| && i <= |CStr(s2)| && i < |s1| && i < |s2| && s1[..i] == s2[..i]
      invariant m <= n && m + i == n && (i > 0 ==> m >= 1)
      decreases m
    {
      i, m := i + 1, m - 1;
    }
    r := Signed(s1[i]) - Signed(s2[i]);
    assert StopsAt(s1, s2, n, i);
  }

  /** All of a string that strcmp looks at. */
  function Cut(s: seq<byte>): seq<byte> {
    if |s| < MAX_STR_LEN then s else s[..MAX_STR_LEN]
  }

  lemma CutShort(s: seq<byte>, t: seq<byte>)
    requires |t| < MAX_STR_LEN
    ensures Cut(s) == Cut(t) <==> s == t
  {
  }

  /** strcmp tells equal strings, up to MAX_STR_LEN characters. */
  method StrCmp(s1: seq<byte>, s2: seq<byte>) returns (r: int)
    requires 0 in s1 && 0 in s2
    ensures r == 0 <==> Cut(CStr(s1)) == Cut(CStr(s2))
  {
    r := StrNCmp(s1, s2, MAX_STR_LEN);
    ghost var k: nat :| StopsAt(s1, s2, MAX_STR_LEN, k) && r == Signed(s1[k]) - Signed(s2[k]);
    if r != 0 {
      DifferAt(s1, s2, k);
    } else if s1[k] == 0 {
      CStrIs(s1, k);
      CStrIs(s2, k);
    } else {
      assert s1[..k + 1] == s2[..k + 1];
      assert CStr(s1)[..k + 1] == s1[..k + 1] && CStr(s2)[..k + 1] == s2[..k + 1];
    }
  }

  /** Strings that differ at a character strcmp looks at. */
  lemma DifferAt(s1: seq<byte>, s2: seq<byte>, k: nat)
    requires 0 in s1 && 0 in s2 && k <= |CStr(s1)| && k <= |CStr(s2)| && k < |s1| && k < |s2| && s1[k] != s2[k]
    requires k < MAX_STR_LEN
    ensures Cut(CStr(s1)) != Cut(CStr(s2))
  {
    var c1, c2 := CStr(s1), CStr(s2);
    if k < |c1| && k < |c2| {
      assert Cut(c1)[k] == s1[k] && Cut(c2)[k] == s2[k];
    } else {
      assert |Cut(c1)| == k || |Cut(c2)| == k;
    }
  }

  /** memcpy into a buffer, byte by byte. */
  method MemCpy(out: array<byte>, at: nat, src: seq<byte>)
    requires at + |src| <= out.Length
    modifies out
    ensures out[..] == old(out[..at]) + src + old(out[at + |src|..])
  {
    var i := 0;
    while i < |src|
      invariant i <= |src| && out[..at + i] == old(out[..at]) + src[..i]
      invariant out[at + i..] == old(out[at + i..])
    {
      out[at + i] := src[i];
      i := i + 1;
    }
    assert out[..] == out[..at + i] + out[at + i..];
  }

  method MemSet(out: array<byte>, at: nat, c: byte, n: nat)
    requires at + n <= out.Length
    modifies out
    ensures out[..] == old(out[..at]) + seq(n, _ => c) + old(out[at + n..])
  {
    var i := 0;
    while i < n
      invariant i <= n && out[..at + i] == old(out[..at]) + seq(i, _ => c)
      invariant out[at + i..] == old(out[at + i..])
    {
      out[at + i] := c;
      i := i + 1;
    }
    assert out[..] == out[..at + i] + out[at + i..];
  }

  /** After n bytes of one buffer are copied from src to dst. */
  ghost predicate Moved(before: seq<byte>, after: seq<byte>, dst: nat, src: nat, n: nat)
    requires dst + n <= |before| && src + n <= |before|
  {
    && |after| == |before|
    && (forall j | 0 <= j < |after| && !(dst <= j < dst + n) :: after[j] == before[j])
    && (forall j | dst <= j < dst + n :: after[j] == before[src + (j - dst)])
  }

  /** The loop from the last byte down. */
  method MoveBackward(m: array<byte>, dst: nat, src: nat, n: nat)
    requires src < dst && dst + n <= m.Length
    modifies m
    ensures Moved(old(m[..]), m[..], dst, src, n)
  {
    ghost var before := m[..];
    var i := n;
    while i > 0
      invariant 0 <= i <= n
      invariant forall j | 0 <= j < m.Length && !(dst + i <= j < dst + n) :: m[j] == before[j]
      invariant forall j | dst + i <= j < dst + n :: m[j] == before[src + (j - dst)]
    {
      i := i - 1;
      m[dst + i] := m[src + i];
    }
  }

  /** memcpy within one buffer, from the first byte up. */
  method MoveForward(m: array<byte>, dst: nat, src: nat, n: nat)
    requires src >= dst || src + n < dst
    requires dst + n <= m.Length && src + n <= m.Length
    modifies m
    ensures Moved(old(m[..]), m[..], dst, src, n)
  {
    ghost var before := m[..];
    var i := 0;
    while i < n
      invariant 0 <= i <= n
      invariant forall j | 0 <= j < m.Length && !(dst <= j < dst + i) :: m[j] == before[j]
      invariant forall j | dst <= j < dst + i :: m[j] == before[src + (j - dst)]
    {
      m[dst + i] := m[src + i];
      i := i + 1;
    }
  }

  /** memmove within one buffer: whatever the overlap, the destination gets the bytes the source had. */
  method MemMove(m: array<byte>, dst: nat, src: nat, n: nat)
    requires dst + n <= m.Length && src + n <= m.Length
    modifies m
    ensures Moved(old(m[..]), m[..], dst, src, n)
  {
    if src < dst && dst <= src + n {
      MoveBackward(m, dst, src, n);
    } else {
      MoveForward(m, dst, src, n);
    }
  }

  /** So the destination is the old source, and the rest is as it was. */
  lemma MovedMeans(before: seq<byte>, after: seq<byte>, dst: nat, src: nat, n: nat)
    requires dst + n <= |before| && src + n <= |before| && Moved(before, after, dst, src, n)
    ensures |after| == |before| && after[dst..dst + n] == before[src..src + n]
    ensures after[..dst] == before[..dst] && after[dst + n..] == before[dst + n..]
  {
    var x, y := after[dst..dst + n], before[src..src + n];
    forall k | 0 <= k < n ensures x[k] == y[k] {
      assert after[dst + k] == before[src + ((dst + k) - dst)];
    }
  }

  method StrLen(s: seq<byte>) returns (n: nat)
    requires 0 in s
    ensures n == |CStr(s)|
  {
    n := 0;
    while s[n] != 0
      invariant n <= |CStr(s)|
      decreases |s| - n
    {
      n := n + 1;
    }
    assert 0 !in s[..n] by { assert s[..n] == CStr(s)[..n]; }
    CStrIs(s, n);
  }

  /** strcpy into a buffer from position `at` on; the position of the NUL is handed back. */
  method StrCpy(out: array<byte>, at: nat, src: seq<byte>) returns (end: nat)
    requires 0 in src && at + |CStr(src)| < out.Length
    modifies out
    ensures end == at + |CStr(src)| && out[end] == 0
    ensures out[..at] == old(out[..at]) && out[at..end] == CStr(src) && out[end + 1..] == old(out[end + 1..])
  {
    var i := 0;
    while src[i] != 0
      invariant i <= |CStr(src)|
      invariant out[..at] == old(out[..at]) && out[at..at + i] == src[..i] && out[at + i..] == old(out[at + i..])
      decreases |src| - i
    {
      out[at + i] := src[i];
      i := i + 1;
    }
    assert 0 !in src[..i] by { assert src[..i] == CStr(src)[..i]; }
    CStrIs(src, i);
    out[at + i] := 0;
    end := at + i;
  }

  /** strcat: the string is appended to the one in the buffer. */
  method StrCat(out: array<byte>, src: seq<byte>)
    requires 0 in src && 0 in out[..] && |CStr(out[..])| + |CStr(src)| < out.Length
    modifies out
    ensures 0 in out[..] && CStr(out[..]) == old(CStr(out[..])) + CStr(src)
    ensures |CStr(out[..])| < out.Length && out[|CStr(out[..])| + 1..] == old(out[|CStr(out[..])| + |CStr(src)| + 1..])
  {
    ghost var before := CStr(out[..]);
    var d := 0;
    while out[d] != 0
      invariant d <= |CStr(out[..])|
      decreases out.Length - d
    {
      d := d + 1;
    }
    assert 0 !in out[..d] by { assert out[..d] == CStr(out[..])[..d]; }
    CStrIs(out[..], d);
    var end := StrCpy(out, d, src);
    assert out[..end] == before + CStr(src);
    assert out[..][..end] == out[..end];
    CStrIs(out[..], end);
  }
}
