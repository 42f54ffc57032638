/** UTF-8 byte streams by the grammar of section 4 of RFC 3629, and where a stream may be cut. */
module Utf8 {
  newtype Byte = b: int | 0 <= b < 256

  predicate Tail(b: Byte) { 0x80 <= b <= 0xBF }

  /** One encoded character. */
  predicate IsChar(c: seq<Byte>) {
    || (|c| == 1 && c[0] <= 0x7F)
    || (|c| == 2 && 0xC2 <= c[0] <= 0xDF && Tail(c[1]))
    || (|c| == 3 && Tail(c[1]) && Tail(c[2]) &&
        (|| (c[0] == 0xE0 && 0xA0 <= c[1])
         || (0xE1 <= c[0] <= 0xEC)
         || (c[0] == 0xED && c[1] <= 0x9F)
         || (0xEE <= c[0] <= 0xEF)))
    || (|c| == 4 && Tail(c[1]) && Tail(c[2]) && Tail(c[3]) &&
        (|| (c[0] == 0xF0 && 0x90 <= c[1])
         || (0xF1 <= c[0] <= 0xF3)
         || (c[0] == 0xF4 && c[1] <= 0x8F)))
  }

  /** The length its first byte announces. */
  function Announced(lead: Byte): nat {
    if lead <= 0x7F then 1 else if lead <= 0xDF then 2 else if lead <= 0xEF then 3 else 4
  }

  predicate ValidUtf8(s: seq<Byte>) {
    s == [] || var n := Announced(s[0]); n <= |s| && IsChar(s[..n]) && ValidUtf8(s[n..])
  }

  /** The beginning of a character that is not complete, possibly empty. */
  ghost predicate Partial(p: seq<Byte>) {
    p == [] || exists c: seq<Byte> :: IsChar(c) && |p| < |c| && c[..|p|] == p
  }

  lemma BeginningIsPartial(b: seq<Byte>, c: seq<Byte>)
    requires IsChar(c) && |b| < |c| && b <= c
    ensures b[..0] == [] && Partial(b[0..])
  {
    assert c[..|b|] == b[0..];
  }

  lemma Slices(b: seq<Byte>, t: seq<Byte>, n: nat, k: nat)
    requires b <= t && n + k <= |b|
    ensures b[..n] == t[..n] && b[..n + k][..n] == b[..n] && b[..n + k][n..] == b[n..][..k] && b[n..][k..] == b[n + k..]
  {
  }

  /** A prefix of a valid stream is a valid stream and the beginning of a character. */
  lemma {:induction false} PrefixSplits(b: seq<Byte>, t: seq<Byte>) returns (k: nat)
    requires ValidUtf8(t) && b <= t
    ensures k <= |b| && ValidUtf8(b[..k]) && Partial(b[k..])
    decreases |t|
  {
    if b == [] { return 0; }
    var n := Announced(t[0]);
    if |b| < n {
      BeginningIsPartial(b, t[..n]);
      return 0;
    }
    hide IsChar, Partial;
    assert b[n..] <= t[n..];
    k := PrefixSplits(b[n..], t[n..]);
    Slices(b, t, n, k);
    k := n + k;
  }

  lemma Beginning(d: seq<Byte>, r: seq<Byte>, n: nat)
    requires n <= |d|
    ensures (d + r)[..n] == d[..n] && (d + r)[n..] == d[n..] + r
  {
  }

  /** What follows a valid beginning of a valid stream is valid. */
  lemma {:induction false} RestValid(d: seq<Byte>, r: seq<Byte>)
    requires ValidUtf8(d) && ValidUtf8(d + r)
    ensures ValidUtf8(r)
    decreases |d|
  {
    if d == [] {
      assert d + r == r;
    } else {
      var n := Announced(d[0]);
      Beginning(d, r, n);
      RestValid(d[n..], r);
    }
  }

  lemma {:induction false} Joined(d: seq<Byte>, r: seq<Byte>)
    requires ValidUtf8(d) && ValidUtf8(r)
    ensures ValidUtf8(d + r)
    decreases |d|
  {
    if d == [] {
      assert d + r == r;
    } else {
      hide IsChar;
      var n := Announced(d[0]);
      Joined(d[n..], r);
      Beginning(d, r, n);
    }
  }

  /** A valid stream ends with a character. */
  lemma {:induction false} LastChar(v: seq<Byte>) returns (n: nat)
    requires ValidUtf8(v) && v != []
    ensures 1 <= n <= 4 && n <= |v| && IsChar(v[|v| - n..])
    decreases |v|
  {
    var m := Announced(v[0]);
    if |v| == m {
      assert v[..m] == v[0..];
      return m;
    }
    n := LastChar(v[m..]);
    assert v[m..][|v| - m - n..] == v[|v| - n..];
  }
}
