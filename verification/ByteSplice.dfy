/** Runs of bytes stored into a buffer. */
module ByteSplice {
  import opened Words

  /** s with the bytes w stored at b. */
  function Splice(s: seq<u8>, b: nat, w: seq<u8>): (r: seq<u8>)
    requires b + |w| <= |s|
    ensures |r| == |s| && r[b..b + |w|] == w
  {
    s[..b] + w + s[b + |w|..]
  }

  /** s after w was copied to b; copying no bytes is fine at any place. */
  function Copied(s: seq<u8>, b: nat, w: seq<u8>): (r: seq<u8>)
    requires w == [] || b + |w| <= |s|
    ensures |r| == |s|
  {
    if w == [] then s else Splice(s, b, w)
  }

  lemma SpliceNothing(s: seq<u8>, b: nat, n: nat)
    requires b + n <= |s|
    ensures Splice(s, b, s[b..b + n]) == s
  {
  }

  lemma SpliceJoin(s: seq<u8>, b: nat, w: seq<u8>, v: seq<u8>)
    requires b + |w| + |v| <= |s|
    ensures Splice(Splice(s, b, w), b + |w|, v) == Splice(s, b, w + v)
  {
  }

  lemma SpliceElsewhere(s: seq<u8>, b: nat, w: seq<u8>, from: nat, to: nat)
    requires b + |w| <= |s| && from <= to <= |s| && (to <= b || b + |w| <= from)
    ensures Splice(s, b, w)[from..to] == s[from..to]
  {
    var r := Splice(s, b, w);
    assert forall i :: from <= i < to ==> r[i] == s[i];
  }

  lemma SpliceKeeps(s: seq<u8>, b: nat, w: seq<u8>, k: nat)
    requires b + |w| <= |s| && k < |s| && (k < b || b + |w| <= k)
    ensures Splice(s, b, w)[k] == s[k]
  {
  }

  lemma SpliceEmpty(s: seq<u8>, b: nat)
    requires b <= |s|
    ensures Splice(s, b, []) == s
  {
  }

  /** One byte stored inside the window w of s at b. */
  lemma SpliceByte(s: seq<u8>, b: nat, w: seq<u8>, k: nat, x: u8)
    requires b + |w| <= |s| && k < |w|
    ensures Splice(s, b, w)[b + k := x] == Splice(s, b, w[k := x]) && Splice(s, b, w)[b + k] == w[k]
  {
  }

  /** memcpy, or the assignment of a byte array inside a struct. */
  method Copy(buf: array<u8>, b: nat, src: seq<u8>)
    requires b + |src| <= buf.Length
    modifies buf
    ensures buf[..] == Splice(old(buf[..]), b, src)
  {
    var i := 0;
    ghost var s := buf[..];
    while i < |src|
      invariant 0 <= i <= |src|
      invariant buf[..] == Splice(s, b, src[..i])
    {
      ExtendSplice(s, b, src[..i], src[i]);
      assert src[..i + 1] == src[..i] + [src[i]];
      buf[b + i] := src[i];
      i := i + 1;
    }
    assert src[..i] == src;
  }

  lemma ExtendSplice(s: seq<u8>, b: nat, w: seq<u8>, x: u8)
    requires b + |w| < |s|
    ensures Splice(s, b, w)[b + |w| := x] == Splice(s, b, w + [x])
  {
  }

  function Zeros(n: nat): (s: seq<u8>)
    ensures |s| == n
  {
    seq(n, _ => 0)
  }

  /** memset to zero. */
  method Clear(buf: array<u8>, b: nat, n: nat)
    requires b + n <= buf.Length
    modifies buf
    ensures buf[..] == Splice(old(buf[..]), b, Zeros(n))
  {
    ghost var s := buf[..];
    var i := 0;
    while i < n
      invariant 0 <= i <= n
      invariant buf[..] == Splice(s, b, Zeros(i))
    {
      ExtendSplice(s, b, Zeros(i), 0);
      assert Zeros(i + 1) == Zeros(i) + [0];
      buf[b + i] := 0;
      i := i + 1;
    }
  }

  /** memcpy between disjoint ranges of one buffer. */
  method CopyWithin(buf: array<u8>, b: nat, from: nat, n: nat)
    requires b + n <= buf.Length && from + n <= buf.Length && (b + n <= from || from + n <= b)
    modifies buf
    ensures buf[..] == Splice(old(buf[..]), b, old(buf[from..from + n]))
  {
    hide Splice;
    ghost var s := buf[..];
    ghost var w := buf[from..from + n];
    SpliceEmpty(s, b);
    var i := 0;
    while i < n
      invariant 0 <= i <= n
      invariant buf[..] == Splice(s, b, w[..i])
    {
      SpliceKeeps(s, b, w[..i], from + i);
      assert buf[from + i] == buf[..][from + i] == w[i];
      ExtendSplice(s, b, w[..i], w[i]);
      assert w[..i + 1] == w[..i] + [w[i]];
      buf[b + i] := buf[from + i];
      i := i + 1;
    }
    assert w[..i] == w;
  }
}
