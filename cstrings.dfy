/**
 * NUL-terminated byte strings and a model of libc strcmp, used by
 * CMPSC450_HW2/uniq_str.cc.  A pointer into the string buffer is modelled
 * by the bytes from that position to the end of the buffer; the string it
 * denotes is the part before the first NUL.
 */
module CStrings {

  newtype byte = x: int | 0 <= x < 256

  const NUL: byte := 0
  const LF: byte := 10

  /** The string a pointer denotes: its bytes up to the first NUL (or the buffer's end). */
  function CStr(mem: seq<byte>): seq<byte>
  {
    if |mem| == 0 || mem[0] == NUL then [] else [mem[0]] + CStr(mem[1..])
  }

  /** CStr(mem) is the longest NUL-free prefix of mem. */
  lemma {:induction false} CStrPrefix(mem: seq<byte>)
    ensures |CStr(mem)| <= |mem| && CStr(mem) == mem[..|CStr(mem)|]
    ensures NUL !in CStr(mem)
    ensures |CStr(mem)| < |mem| ==> mem[|CStr(mem)|] == NUL
  {
    if |mem| > 0 && mem[0] != NUL {
      CStrPrefix(mem[1..]);
    }
  }

  /** Three-way lexicographic comparison of byte strings, as unsigned char values. */
  function LexCmp(a: seq<byte>, b: seq<byte>): (c: int)
    ensures -1 <= c <= 1
  {
    if |a| == 0 then (if |b| == 0 then 0 else -1)
    else if |b| == 0 then 1
    else if a[0] < b[0] then -1
    else if a[0] > b[0] then 1
    else LexCmp(a[1..], b[1..])
  }

  /**
   * strcmp(u, v).  The C standard fixes only the sign of the result; this
   * model returns -1, 0 or 1.
   */
  function Strcmp(u: seq<byte>, v: seq<byte>): (c: int)
    ensures -1 <= c <= 1
  {
    LexCmp(CStr(u), CStr(v))
  }

  /** Strict lexicographic order: a proper prefix, or smaller at the first difference. */
  ghost predicate LexLess(a: seq<byte>, b: seq<byte>)
  {
    (|a| < |b| && a == b[..|a|]) ||
    exists i :: 0 <= i < |a| && i < |b| && a[..i] == b[..i] && a[i] < b[i]
  }

  lemma {:induction false} LexCmpZero(a: seq<byte>, b: seq<byte>)
    ensures LexCmp(a, b) == 0 <==> a == b
  {
    if |a| > 0 && |b| > 0 && a[0] == b[0] {
      LexCmpZero(a[1..], b[1..]);
      if a[1..] == b[1..] {
        assert a == [a[0]] + a[1..] && b == [b[0]] + b[1..];
      }
    }
  }

  lemma {:induction false} LexCmpAntisymmetric(a: seq<byte>, b: seq<byte>)
    ensures LexCmp(a, b) == -LexCmp(b, a)
  {
    if |a| > 0 && |b| > 0 && a[0] == b[0] {
      LexCmpAntisymmetric(a[1..], b[1..]);
    }
  }

  lemma {:induction false} LexCmpLess(a: seq<byte>, b: seq<byte>)
    ensures LexCmp(a, b) < 0 <==> LexLess(a, b)
  {
    if |a| == 0 {
      if |b| != 0 {
        assert a == b[..0];
      }
    } else if |b| == 0 {
    } else if a[0] < b[0] {
      assert a[..0] == b[..0];
    } else if a[0] > b[0] {
    } else {
      LexCmpLess(a[1..], b[1..]);
      if LexLess(a[1..], b[1..]) {
        if |a| - 1 < |b| - 1 && a[1..] == b[1..][..|a| - 1] {
          assert a == [a[0]] + a[1..] && b[..|a|] == [b[0]] + b[1..][..|a| - 1];
        } else {
          var i :| 0 <= i < |a| - 1 && i < |b| - 1 && a[1..][..i] == b[1..][..i] && a[1..][i] < b[1..][i];
          assert a[..i + 1] == [a[0]] + a[1..][..i] && b[..i + 1] == [b[0]] + b[1..][..i];
        }
      }
      if LexLess(a, b) {
        if |a| < |b| && a == b[..|a|] {
          assert a[1..] == b[1..][..|a| - 1];
        } else {
          var i :| 0 <= i < |a| && i < |b| && a[..i] == b[..i] && a[i] < b[i];
          assert i > 0;
          assert a[1..][..i - 1] == a[..i][1..] && b[1..][..i - 1] == b[..i][1..];
        }
      }
    }
  }

  /** strcmp is zero exactly on equal strings. */
  lemma StrcmpZero(u: seq<byte>, v: seq<byte>)
    ensures Strcmp(u, v) == 0 <==> CStr(u) == CStr(v)
  {
    LexCmpZero(CStr(u), CStr(v));
  }

  /** strcmp(u, v) == -strcmp(v, u). */
  lemma StrcmpAntisymmetric(u: seq<byte>, v: seq<byte>)
    ensures Strcmp(u, v) == -Strcmp(v, u)
  {
    LexCmpAntisymmetric(CStr(u), CStr(v));
  }

  /** strcmp is negative exactly when the first string sorts strictly first. */
  lemma StrcmpLess(u: seq<byte>, v: seq<byte>)
    ensures Strcmp(u, v) < 0 <==> LexLess(CStr(u), CStr(v))
  {
    LexCmpLess(CStr(u), CStr(v));
  }
}
