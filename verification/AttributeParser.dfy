/** parse_rtattr_flags and __parse_rtattr_nested_compat (tbf/libnetlink.c:1355-1399). */
module AttributeParser {
  import opened Basics
  import opened Attributes
  import opened AttributeBuilder

  /** tb[t] while the loop stands at rta with len bytes to go, if it ends with r. */
  ghost predicate Filling(b: seq<byte>, tb: seq<Option<nat>>, rta: nat, len: int, flags: nat, r: seq<Option<nat>>) {
    |tb| == |r| && forall t :: 0 <= t < |tb| ==>
      r[t] == if tb[t].Some? then tb[t] else Find(b, rta, len, t, flags)
  }

  /** What parsing len bytes from rta on leaves in a table of n slots. */
  ghost function Parsed(b: seq<byte>, rta: nat, len: int, flags: nat, n: nat): (r: seq<Option<nat>>)
    ensures |r| == n && forall t :: 0 <= t < n ==> r[t] == Find(b, rta, len, t, flags)
  {
    seq(n, t requires 0 <= t < n => Find(b, rta, len, t, flags))
  }

  /** One attribute: it takes its slot if that is free and in range. */
  lemma {:induction false} Turn(b: seq<byte>, tb: seq<Option<nat>>, tb': seq<Option<nat>>, rta: nat, len: int,
                                flags: nat,
                                r: seq<Option<nat>>)
    requires Filling(b, tb, rta, len, flags, r) && Ok(b, rta, len)
    requires var k := AndNot(RtaType(b, rta), flags);
      tb' == if k < |tb| && tb[k].None? then tb[k := Some(rta)] else tb
    ensures var n := Align(RtaLen(b, rta)); Filling(b, tb', rta + n, len - n, flags, r)
  {
  }

  /** parse_rtattr_flags: the first attribute of each type, for any bytes at all; the rest of the length is returned. */
  method ParseFlags(tb: array<Option<nat>>, b: seq<byte>, rta0: nat, len0: int, flags: nat) returns (left: int)
    requires Readable(b, rta0, len0)
    modifies tb
    ensures tb[..] == Parsed(b, rta0, len0, flags, tb.Length) && left == Deficit(b, rta0, len0)
  {
    var i := 0;
    while i < tb.Length
      invariant 0 <= i <= tb.Length && forall j :: 0 <= j < i ==> tb[j].None?
    {
      tb[i] := None;
      i := i + 1;
    }
    ghost var r := Parsed(b, rta0, len0, flags, tb.Length);
    var rta: nat, len: int := rta0, len0;
    while len >= HDR && HDR <= RtaLen(b, rta) <= len
      invariant Readable(b, rta, len)
      invariant Filling(b, tb[..], rta, len, flags, r) && Deficit(b, rta, len) == Deficit(b, rta0, len0)
      decreases len
    {
      var kind := AndNot(RtaType(b, rta), flags);
      ghost var old' := tb[..];
      if kind < tb.Length && tb[kind].None? {
        tb[kind] := Some(rta);
      }
      Turn(b, old', tb[..], rta, len, flags, r);
      var n := Align(RtaLen(b, rta));
      rta, len := rta + n, len - n;
    }
    left := len;
  }

  /** __parse_rtattr_nested_compat: -1 if the fixed part is missing, otherwise the table of the nest, if any. */
  method ParseNestedCompat(tb: array<Option<nat>>, b: seq<byte>, rta: nat, fixed: nat) returns (ret: int)
    requires HopReadable(b, rta, IntoCompat(0, fixed))
    requires var p := Payload(b, rta, IntoCompat(0, fixed)); p.Some? ==> Readable(b, p.value.0, p.value.1)
    modifies tb
    ensures var p := Payload(b, rta, IntoCompat(0, fixed));
      && ret == (if p.Some? then 0 else -1)
      && tb[..] == if p.Some? then Parsed(b, p.value.0, p.value.1, 0, tb.Length) else old(tb[..])
  {
    var n := PayloadSize(b, rta);
    if n < fixed {
      return -1;
    }
    var inner := rta + HDR + Align(fixed);
    if n >= Align(fixed) + HDR {
      var _ := ParseFlags(tb, b, inner + HDR, RtaLen(b, inner) - HDR, 0);
    } else {
      // memset only: there is nothing to parse
      var _ := ParseFlags(tb, b, rta, 0, 0);
    }
    ret := 0;
  }

  /** Building, then parsing: what the calls lay out, the parser finds where it was put, at any depth, and no more. */
  method RoundTrip(m: Message, maxlen: nat, s: seq<Attr>, tb: array<Option<nat>>, flags: nat)
    returns (left: int, ghost b: seq<byte>)
    requires maxlen <= m.buf.Length && SmallAll(s) && Aligned(m.len) && m.len + SizeAll(s) <= maxlen
    modifies m, m.buf, tb
    ensures b == m.buf[..] && m.len == old(m.len) + SizeAll(s) && Same(old(m.buf[..]), b, 0, old(m.len)) && left == 0
    ensures forall t :: 0 <= t < tb.Length ==> Found(b, tb[t], Seek(s, t, flags, old(m.len)))
    ensures flags == 0 ==> forall t :: 0 <= t < tb.Length ==> Found(b, tb[t], SeekKind(s, t, old(m.len)))
    ensures forall path, t :: Knows(s, path) ==>
      Found(b, Get(b, old(m.len), SizeAll(s), path, t), Reach(s, old(m.len), path, t))
  {
    var start := m.len;
    m.EmitAll(maxlen, s);
    b := m.buf[..];
    InsideReadable(b, start, m.len - start);
    left := ParseFlags(tb, m.buf[..], start, m.len - start, flags);
    NoDeficit(b, start, s);
    forall t | 0 <= t < tb.Length
      ensures Found(b, tb[t], Seek(s, t, flags, start)) && Seek(s, t, 0, start) == SeekKind(s, t, start)
    {
      FindsAll(b, start, s, t, flags);
      SeekPlain(s, t, start);
      assert tb[t] == tb[..][t];
    }
    forall path: seq<Hop>, t: nat | Knows(s, path)
      ensures Found(b, Get(b, start, SizeAll(s), path, t), Reach(s, start, path, t))
    {
      Parses(b, start, s, path, t);
    }
  }
}
