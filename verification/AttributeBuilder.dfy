/** addattr_l and the nesting calls (tbf/libnetlink.c:1210-1277): what a sequence of calls writes is an encoding. */
module AttributeBuilder {
  import opened Attributes

  lemma Part(b: seq<byte>, b': seq<byte>, lo: nat, hi: nat, lo': nat, hi': nat)
    requires Same(b, b', lo, hi) && lo <= lo' <= hi' <= hi
    ensures Same(b, b', lo', hi') && b[lo'..hi'] == b'[lo'..hi']
  {
  }

  /** A header and its data were written at t; every other byte, padding included, is as it was. */
  ghost predicate Wrote(b: seq<byte>, b': seq<byte>, t: nat, kind: nat, d: seq<byte>) {
    && t + HDR + |d| <= |b| && Same(b, b', 0, t) && Same(b, b', t + HDR + |d|, |b|)
    && RtaLen(b', t) == (HDR + |d|) % 65536 && RtaType(b', t) == kind % 65536 && b'[t + HDR..t + HDR + |d|] == d
  }

  /** Only the rta_len at t was written. */
  ghost predicate Resized(b: seq<byte>, b': seq<byte>, t: nat, n: nat) {
    && t + HDR <= |b| && Same(b, b', 0, t) && Same(b, b', t + HDR, |b|)
    && RtaLen(b', t) == n % 65536 && RtaType(b', t) == RtaType(b, t)
  }

  /** What addattr_l does: an attribute that does not fit changes nothing, one that fits is written at the tail. */
  ghost predicate Appended(b: seq<byte>, len: nat, b': seq<byte>, len': nat, maxlen: nat, kind: nat, d: seq<byte>) {
    var t := Align(len);
    if t + Align(HDR + |d|) <= maxlen then len' == t + Align(HDR + |d|) && Wrote(b, b', t, kind, d)
    else len' == len && b' == b
  }

  // ----- encodings depend on their own bytes only

  lemma HeaderSame(b: seq<byte>, b': seq<byte>, at: nat, end: nat, len: nat, kind: nat)
    requires Header(b, at, len, kind) && Same(b, b', at, end) && at + HDR <= end
    ensures Header(b', at, len, kind)
  {
  }

  lemma {:induction false} Frame(b: seq<byte>, b': seq<byte>, at: nat, a: Attr)
    requires Encodes(b, at, a) && Same(b, b', at, at + Size(a))
    ensures Encodes(b', at, a)
    decreases a, 0
  {
    var end := at + Size(a);
    HeaderSame(b, b', at, end, RtaLen(b, at), a.kind);
    match a
    case Plain(k, d) =>
      Part(b, b', at, end, at + HDR, at + HDR + |d|);
    case Nest(k, ks) =>
      FrameAll(b, b', at + HDR, ks);
    case Compat(k, d, ks) =>
      var i := at + HDR + Align(|d|);
      Part(b, b', at, end, at + HDR, at + HDR + |d|);
      FrameInner(b, b', i, k, ks);
  }

  lemma {:induction false} FrameInner(b: seq<byte>, b': seq<byte>, at: nat, k: nat, ks: seq<Attr>)
    requires Inner(b, at, k, ks) && Same(b, b', at, at + HDR + SizeAll(ks))
    ensures Inner(b', at, k, ks)
    decreases ks, 1
  {
    HeaderSame(b, b', at, at + HDR + SizeAll(ks), HDR + SizeAll(ks), k);
    FrameAll(b, b', at + HDR, ks);
  }

  lemma {:induction false} FrameAll(b: seq<byte>, b': seq<byte>, at: nat, s: seq<Attr>)
    requires EncodesAll(b, at, s) && Same(b, b', at, at + SizeAll(s))
    ensures EncodesAll(b', at, s)
    decreases s, 0
  {
    if s != [] {
      Frame(b, b', at, s[0]);
      FrameAll(b, b', at + Size(s[0]), s[1..]);
    }
  }

  // ----- closing a nest

  lemma {:induction false} NestClosed(b: seq<byte>, b': seq<byte>, t: nat, k: nat, ks: seq<Attr>)
    requires Header(b, t, HDR, k) && EncodesAll(b, t + HDR, ks) && HDR + SizeAll(ks) < 65536
    requires Resized(b, b', t, HDR + SizeAll(ks))
    ensures Inner(b', t, k, ks)
  {
    FrameAll(b, b', t + HDR, ks);
  }

  /** A compat nest not yet closed: the fixed part is at t and the nest at i. */
  ghost predicate CompatOpen(b: seq<byte>, t: nat, i: nat, k: nat, d: seq<byte>, ks: seq<Attr>) {
    && i == t + HDR + Align(|d|) && Header(b, t, HDR + |d|, k) && Carries(b, t, d)
    && Header(b, i, HDR, k) && EncodesAll(b, i + HDR, ks)
  }

  lemma {:induction false} CompatOpened(b: seq<byte>, b1: seq<byte>, b2: seq<byte>, b3: seq<byte>,
                                        t: nat, k: nat, d: seq<byte>, ks: seq<Attr>)
    requires var i := t + HDR + Align(|d|);
      && Wrote(b, b1, t, k, d) && Wrote(b1, b2, i, k, []) && Same(b2, b3, 0, i + HDR)
      && EncodesAll(b3, i + HDR, ks) && HDR + |d| < 65536 && k < 65536
    ensures CompatOpen(b3, t, t + HDR + Align(|d|), k, d, ks) && Same(b, b3, 0, t)
  {
    var i := t + HDR + Align(|d|);
    Part(b1, b2, 0, i, t, i);
    HeaderSame(b1, b2, t, i, HDR + |d|, k);
    HeaderSame(b2, b3, t, i, HDR + |d|, k);
    HeaderSame(b2, b3, i, i + HDR, HDR, k);
    Part(b1, b2, 0, i, t + HDR, t + HDR + |d|);
    Part(b2, b3, 0, i + HDR, t + HDR, t + HDR + |d|);
  }

  lemma {:induction false} CompatClosed(b: seq<byte>, b1: seq<byte>, b2: seq<byte>,
                                        t: nat, i: nat, k: nat, d: seq<byte>, ks: seq<Attr>)
    requires CompatOpen(b, t, i, k, d, ks) && i + HDR + SizeAll(ks) - t < 65536
    requires Resized(b, b1, t, i + HDR + SizeAll(ks) - t) && Resized(b1, b2, i, HDR + SizeAll(ks))
    ensures Encodes(b2, t, Compat(k, d, ks))
  {
    InnerClosed(b, b1, b2, t, i, k, ks);
    FixedKept(b, b1, b2, t, i, k, d, i + HDR + SizeAll(ks) - t);
  }

  lemma InnerClosed(b: seq<byte>, b1: seq<byte>, b2: seq<byte>, t: nat, i: nat, k: nat, ks: seq<Attr>)
    requires t + HDR <= i && Header(b, i, HDR, k) && EncodesAll(b, i + HDR, ks) && HDR + SizeAll(ks) < 65536
    requires Same(b, b1, t + HDR, |b|) && Resized(b1, b2, i, HDR + SizeAll(ks))
    ensures Inner(b2, i, k, ks)
  {
    HeaderSame(b, b1, i, |b|, HDR, k);
    FrameAll(b, b1, i + HDR, ks);
    NestClosed(b1, b2, i, k, ks);
  }

  lemma FixedKept(b: seq<byte>, b1: seq<byte>, b2: seq<byte>, t: nat, i: nat, k: nat, d: seq<byte>, n: nat)
    requires i == t + HDR + Align(|d|) && Header(b, t, HDR + |d|, k) && Carries(b, t, d) && n < 65536
    requires Resized(b, b1, t, n) && Same(b1, b2, 0, i)
    ensures Header(b2, t, n, k) && Carries(b2, t, d)
  {
    HeaderSame(b1, b2, t, i, n, k);
    Part(b, b1, t + HDR, |b|, t + HDR, t + HDR + |d|);
    Part(b1, b2, 0, i, t + HDR, t + HDR + |d|);
  }

  // ----- the message

  /** What one store of w at `at` does to the buffer. */
  ghost predicate Stored(b: seq<byte>, b': seq<byte>, at: nat, n: nat) {
    at + n <= |b| && Same(b, b', 0, at) && Same(b, b', at + n, |b|)
  }

  /** rta_type, rta_len and the data, stored one after the other. */
  lemma WroteAll(b: seq<byte>, b1: seq<byte>, b2: seq<byte>, b3: seq<byte>, t: nat, kind: nat, d: seq<byte>)
    requires t + HDR + |d| <= |b| && Stored(b, b1, t + 2, 2) && Read16(b1, t + 2) == kind % 65536
    requires Stored(b1, b2, t, 2) && Read16(b2, t) == (HDR + |d|) % 65536
    requires Stored(b2, b3, t + HDR, |d|) && b3[t + HDR..t + HDR + |d|] == d
    ensures Wrote(b, b3, t, kind, d)
  {
  }

  class Message {
    const buf: array<byte>
    var len: nat

    constructor (buf: array<byte>, len: nat)
      ensures this.buf == buf && this.len == len
    {
      this.buf, this.len := buf, len;
    }

    /** A store to a __u16 field. */
    method Store16(at: nat, x: nat)
      requires at + 2 <= buf.Length
      modifies buf
      ensures Stored(old(buf[..]), buf[..], at, 2) && Read16(buf[..], at) == x % 65536
    {
      buf[at] := x % 256;
      buf[at + 1] := x / 256 % 256;
    }

    /** memcpy */
    method Copy(at: nat, d: seq<byte>)
      requires at + |d| <= buf.Length
      modifies buf
      ensures Stored(old(buf[..]), buf[..], at, |d|) && buf[at..at + |d|] == d
    {
      var i := 0;
      while i < |d|
        invariant 0 <= i <= |d| && buf[at..at + i] == d[..i] && Stored(old(buf[..]), buf[..], at, |d|)
      {
        buf[at + i] := d[i];
        i := i + 1;
      }
    }

    /** addattr_l: a call that does not fit changes nothing. */
    method AddAttr(maxlen: nat, kind: nat, d: seq<byte>) returns (ok: bool)
      requires maxlen <= buf.Length
      modifies this, buf
      ensures ok <==> old(Align(len)) + Align(HDR + |d|) <= maxlen
      ensures Appended(old(buf[..]), old(len), buf[..], len, maxlen, kind, d)
    {
      var n := HDR + |d|;
      if Align(len) + Align(n) > maxlen {
        return false;
      }
      var t := Align(len);
      ghost var b := buf[..];
      Store16(t + 2, kind);
      ghost var b1 := buf[..];
      Store16(t, n);
      ghost var b2 := buf[..];
      Copy(t + HDR, d);
      WroteAll(b, b1, b2, buf[..], t, kind, d);
      len := t + Align(n);
      ok := true;
    }

    /** addattr_nest */
    method AddNest(maxlen: nat, kind: nat) returns (nest: nat)
      requires maxlen <= buf.Length
      modifies this, buf
      ensures nest == old(Align(len)) && Appended(old(buf[..]), old(len), buf[..], len, maxlen, kind, [])
    {
      nest := Align(len);
      var _ := AddAttr(maxlen, kind, []);
    }

    /** addattr_nest_end */
    method NestEnd(nest: nat)
      requires nest <= Align(len) && nest + HDR <= buf.Length
      modifies buf
      ensures Resized(old(buf[..]), buf[..], nest, Align(len) - nest)
    {
      Store16(nest, Align(len) - nest);
    }

    /** addattr_nest_compat: either of the two may not fit. */
    method AddCompat(maxlen: nat, kind: nat, d: seq<byte>) returns (start: nat, ghost b1: seq<byte>, ghost len1: nat)
      requires maxlen <= buf.Length
      modifies this, buf
      ensures start == old(Align(len)) && Appended(old(buf[..]), old(len), b1, len1, maxlen, kind, d)
      ensures Appended(b1, len1, buf[..], len, maxlen, kind, [])
    {
      start := Align(len);
      var _ := AddAttr(maxlen, kind, d);
      b1, len1 := buf[..], len;
      var _ := AddNest(maxlen, kind);
    }

    /** addattr_nest_compat_end: where the nest is, the length of the fixed part tells. */
    method CompatEnd(start: nat) returns (ghost b1: seq<byte>)
      requires start + HDR <= buf.Length && start <= Align(len)
      requires var nest := start + Align(RtaLen(buf[..], start));
        start + HDR <= nest <= Align(len) && nest + HDR <= buf.Length
      modifies buf
      ensures var nest := start + Align(RtaLen(old(buf[..]), start));
        Resized(old(buf[..]), b1, start, Align(len) - start) && Resized(b1, buf[..], nest, Align(len) - nest)
    {
      var nest := start + Align((buf[start] as int) + 256 * (buf[start + 1] as int));
      Store16(start, Align(len) - start);
      b1 := buf[..];
      NestEnd(nest);
    }

    /** The calls that lay out an attribute, where there is room for it: what they write is its encoding. */
    method Emit(maxlen: nat, a: Attr)
      requires maxlen <= buf.Length && Small(a) && Align(len) + Size(a) <= maxlen
      modifies this, buf
      ensures Laid(old(buf[..]), old(len), buf[..], len, Size(a)) && Encodes(buf[..], old(Align(len)), a)
      decreases a, 0
    {
      match a
      case Plain(k, d) =>
        var _ := AddAttr(maxlen, k, d);
        PlainLaid(old(buf[..]), old(len), buf[..], len, maxlen, k, d);
      case Nest(k, ks) =>
        var nest := Fill(maxlen, k, ks);
        ghost var b := buf[..];
        NestEnd(nest);
        NestClosed(b, buf[..], nest, k, ks);
      case Compat(k, d, ks) =>
        EmitCompat(maxlen, k, d, ks);
    }

    method EmitCompat(maxlen: nat, k: nat, d: seq<byte>, ks: seq<Attr>)
      requires var a := Compat(k, d, ks); maxlen <= buf.Length && Small(a) && Align(len) + Size(a) <= maxlen
      modifies this, buf
      ensures var a := Compat(k, d, ks);
        Laid(old(buf[..]), old(len), buf[..], len, Size(a)) && Encodes(buf[..], old(Align(len)), a)
      decreases ks, 2
    {
      var start := FillCompat(maxlen, k, d, ks);
      ghost var b, i := buf[..], start + HDR + Align(|d|);
      AlignAdd(HDR, |d|);
      ghost var b2 := CompatEnd(start);
      CompatClosed(b, b2, buf[..], start, i, k, d, ks);
    }

    /** addattr_nest_compat and what is inside, before it is closed. */
    method FillCompat(maxlen: nat, k: nat, d: seq<byte>, ks: seq<Attr>) returns (start: nat)
      requires var a := Compat(k, d, ks); maxlen <= buf.Length && Small(a) && Align(len) + Size(a) <= maxlen
      modifies this, buf
      ensures start == old(Align(len)) && Laid(old(buf[..]), old(len), buf[..], len, Size(Compat(k, d, ks)))
      ensures CompatOpen(buf[..], start, start + HDR + Align(|d|), k, d, ks)
      decreases ks, 1
    {
      LaidSize(len, Compat(k, d, ks));
      ghost var b0, b1, len1 := buf[..], [], 0;
      start, b1, len1 := AddCompat(maxlen, k, d);
      ghost var b2 := buf[..];
      BothAppended(b0, old(len), b1, len1, b2, len, maxlen, k, d);
      EmitAll(maxlen, ks);
      CompatOpened(b0, b1, b2, buf[..], start, k, d, ks);
    }

    /** addattr_nest and what is inside, before the nest is closed. */
    method Fill(maxlen: nat, k: nat, ks: seq<Attr>) returns (nest: nat)
      requires maxlen <= buf.Length && SmallAll(ks) && k < 65536 && Align(len) + HDR + SizeAll(ks) <= maxlen
      modifies this, buf
      ensures nest == old(Align(len)) && Laid(old(buf[..]), old(len), buf[..], len, HDR + SizeAll(ks))
      ensures Header(buf[..], nest, HDR, k) && EncodesAll(buf[..], nest + HDR, ks)
      decreases ks, 1
    {
      AlignThree(len, 0);
      nest := AddNest(maxlen, k);
      ghost var b := buf[..];
      EmitAll(maxlen, ks);
      HeaderSame(b, buf[..], nest, nest + HDR, HDR, k);
    }

    method EmitAll(maxlen: nat, s: seq<Attr>)
      requires maxlen <= buf.Length && SmallAll(s) && Align(len) == len && len + SizeAll(s) <= maxlen
      modifies this, buf
      ensures Laid(old(buf[..]), old(len), buf[..], len, SizeAll(s)) && EncodesAll(buf[..], old(len), s)
      decreases s, 0
    {
      if s != [] {
        Emit(maxlen, s[0]);
        ghost var b := buf[..];
        EmitAll(maxlen, s[1..]);
        Frame(b, buf[..], old(len), s[0]);
      }
    }
  }

  /** n more bytes were laid out after what was there. */
  ghost predicate Laid(b: seq<byte>, len: nat, b': seq<byte>, len': nat, n: nat) {
    len' == Align(len) + n && Align(len') == len' && Same(b, b', 0, Align(len))
  }

  lemma {:induction false} PlainLaid(b: seq<byte>, len: nat, b': seq<byte>, len': nat, maxlen: nat, k: nat,
                                     d: seq<byte>)
    requires Appended(b, len, b', len', maxlen, k, d) && Small(Plain(k, d))
    requires Align(len) + Size(Plain(k, d)) <= maxlen <= |b|
    ensures Laid(b, len, b', len', Size(Plain(k, d))) && Encodes(b', Align(len), Plain(k, d))
  {
    CompatPlaces(len, |d|);
  }

  /** Where both parts of a compat nest fit, they lie one behind the other. */
  lemma {:induction false} BothAppended(b: seq<byte>, len: nat, b1: seq<byte>, len1: nat, b2: seq<byte>, len2: nat,
                                        maxlen: nat, k: nat, d: seq<byte>)
    requires Appended(b, len, b1, len1, maxlen, k, d) && Appended(b1, len1, b2, len2, maxlen, k, [])
    requires Align(len) + HDR + Align(|d|) + HDR <= maxlen
    ensures var i := Align(len) + HDR + Align(|d|);
      Wrote(b, b1, Align(len), k, d) && Wrote(b1, b2, i, k, []) && len2 == i + HDR == Align(len2)
  {
    CompatPlaces(len, |d|);
  }

  lemma {:induction false} LaidSize(len: nat, a: Attr)
    ensures Aligned(Align(len) + Size(a))
  {
    AlignAligned(len);
    SizeAligned(a);
    AlignAdd(Align(len), Size(a));
  }

  lemma {:induction false} AlignThree(m: nat, n: nat)
    ensures Aligned(Align(m) + HDR + Align(n))
  {
    AlignAligned(m);
    AlignAligned(n);
    AlignAdd(HDR, Align(n));
    AlignAdd(Align(m), HDR + Align(n));
  }

  lemma {:induction false} CompatPlaces(m: nat, n: nat)
    ensures Align(HDR + n) == HDR + Align(n) && Aligned(Align(m) + HDR + Align(n))
    ensures Aligned(Align(m) + HDR + Align(n) + HDR)
  {
    AlignAdd(HDR, n);
    AlignThree(m, n);
    AlignAdd(Align(m) + HDR + Align(n), HDR);
  }
}
