/** Netlink attributes as bytes: what the builder of tbf/libnetlink.c lays out and what its parser finds. */
module Attributes {
  import opened Basics

  type byte = x: int | 0 <= x < 256

  const HDR: nat := 4

  ghost predicate Same(b: seq<byte>, b': seq<byte>, lo: nat, hi: nat) {
    lo <= hi <= |b| == |b'| && forall i :: lo <= i < hi ==> b[i] == b'[i]
  }

  /** RTA_ALIGN and NLMSG_ALIGN: up to a multiple of four. */
  function Align(n: nat): (r: nat)
    ensures n <= r < n + 4
  {
    if n == 0 then 0 else if n < 4 then 4 else 4 + Align(n - 4)
  }

  predicate Aligned(n: nat) { Align(n) == n }

  lemma {:induction false} AlignMacro(n: nat)
    ensures Align(n) == (n + 3) / 4 * 4
  {
    if n >= 4 {
      AlignMacro(n - 4);
    }
  }

  lemma {:induction false} AlignAdd(a: nat, n: nat)
    requires Aligned(a)
    ensures Align(a + n) == a + Align(n)
  {
    if a >= 4 {
      AlignAdd(a - 4, n);
    }
  }

  lemma {:induction false} AlignAligned(n: nat)
    ensures Aligned(Align(n))
  {
    if n >= 4 {
      AlignAligned(n - 4);
    }
  }

  function Read16(b: seq<byte>, at: nat): nat
    requires at + 2 <= |b|
  {
    (b[at] as int) + 256 * (b[at + 1] as int)
  }

  function RtaLen(b: seq<byte>, at: nat): nat
    requires at + HDR <= |b|
  {
    Read16(b, at)
  }

  function RtaType(b: seq<byte>, at: nat): nat
    requires at + HDR <= |b|
  {
    Read16(b, at + 2)
  }

  /** An attribute, a nest, and a nest with a fixed part in front of it (addattr_nest_compat). */
  datatype Attr =
    | Plain(kind: nat, data: seq<byte>)
    | Nest(kind: nat, kids: seq<Attr>)
    | Compat(kind: nat, data: seq<byte>, kids: seq<Attr>)

  function Size(a: Attr): (n: nat)
    ensures n >= HDR
  {
    match a
    case Plain(_, d) => HDR + Align(|d|)
    case Nest(_, ks) => HDR + SizeAll(ks)
    case Compat(_, d, ks) => HDR + Align(|d|) + HDR + SizeAll(ks)
  }

  function SizeAll(s: seq<Attr>): nat
  {
    if s == [] then 0 else Size(s[0]) + SizeAll(s[1..])
  }

  lemma {:induction false} SizeAligned(a: Attr)
    ensures Aligned(Size(a))
    decreases a, 0
  {
    match a
    case Plain(_, d) =>
      AlignAligned(|d|);
      AlignAdd(HDR, Align(|d|));
    case Nest(_, ks) =>
      SizeAllAligned(ks);
      AlignAdd(HDR, SizeAll(ks));
    case Compat(_, d, ks) =>
      AlignAligned(|d|);
      AlignAdd(HDR, Align(|d|));
      SizeAllAligned(ks);
      AlignAdd(HDR, SizeAll(ks));
      AlignAdd(HDR + Align(|d|), HDR + SizeAll(ks));
  }

  lemma {:induction false} SizeAllAligned(s: seq<Attr>)
    ensures Aligned(SizeAll(s))
    decreases s, 0
  {
    if s != [] {
      SizeAligned(s[0]);
      SizeAllAligned(s[1..]);
      AlignAdd(Size(s[0]), SizeAll(s[1..]));
    }
  }

  /** Types and lengths fit their 16-bit fields. */
  predicate Small(a: Attr) {
    && a.kind < 65536
    && match a
       case Plain(_, d) => HDR + |d| < 65536
       case Nest(_, ks) => Size(a) < 65536 && SmallAll(ks)
       case Compat(_, _, ks) => Size(a) < 65536 && SmallAll(ks)
  }

  predicate SmallAll(s: seq<Attr>) { s != [] ==> Small(s[0]) && SmallAll(s[1..]) }

  predicate Header(b: seq<byte>, at: nat, len: nat, kind: nat) {
    at + HDR <= |b| && RtaLen(b, at) == len && RtaType(b, at) == kind
  }

  /** struct rtattr on a little-endian machine: two bytes of length, then two of type. */
  lemma HeaderBytes(b: seq<byte>, at: nat, len: nat, kind: nat)
    requires at + HDR <= |b|
    ensures Header(b, at, len, kind) <==>
      && len < 65536 && kind < 65536
      && b[at..at + 4] == [len % 256, len / 256, kind % 256, kind / 256]
  {
    assert b[at..at + 4] == [b[at], b[at + 1], b[at + 2], b[at + 3]];
  }

  predicate Carries(b: seq<byte>, at: nat, d: seq<byte>) {
    at + HDR + Align(|d|) <= |b| && b[at + HDR..at + HDR + |d|] == d
  }

  /** The attribute a lies in b from `at` on; the padding bytes are free. */
  predicate Encodes(b: seq<byte>, at: nat, a: Attr)
    decreases a, 0
  {
    && at + Size(a) <= |b|
    && match a
       case Plain(k, d) => Header(b, at, HDR + |d|, k) && Carries(b, at, d)
       case Nest(k, ks) => Header(b, at, Size(a), k) && EncodesAll(b, at + HDR, ks)
       case Compat(k, d, ks) => Header(b, at, Size(a), k) && Carries(b, at, d) && Inner(b, at + HDR + Align(|d|), k, ks)
  }

  predicate Inner(b: seq<byte>, at: nat, k: nat, ks: seq<Attr>)
    decreases ks, 1
  {
    Header(b, at, HDR + SizeAll(ks), k) && EncodesAll(b, at + HDR, ks)
  }

  predicate EncodesAll(b: seq<byte>, at: nat, s: seq<Attr>)
    decreases s, 0
  {
    at + SizeAll(s) <= |b| && (s != [] ==> Encodes(b, at, s[0]) && EncodesAll(b, at + Size(s[0]), s[1..]))
  }

  // ----- the parser (parse_rtattr_flags)

  /** type & ~flags, bit by bit */
  function AndNot(x: nat, flags: nat): nat {
    if x == 0 then 0 else 2 * AndNot(x / 2, flags / 2) + (if flags % 2 == 1 then 0 else x % 2)
  }

  /** Bit k of x. */
  predicate Bit(x: nat, k: nat) { if k == 0 then x % 2 == 1 else Bit(x / 2, k - 1) }

  /** A bit is left exactly if it is not one of the flags. */
  lemma {:induction false} AndNotBits(x: nat, flags: nat, k: nat)
    ensures Bit(AndNot(x, flags), k) <==> Bit(x, k) && !Bit(flags, k)
    decreases k
  {
    if x == 0 {
      NoBits(k);
    } else if k > 0 {
      AndNotBits(x / 2, flags / 2, k - 1);
    }
  }

  lemma {:induction false} NoBits(k: nat)
    ensures !Bit(0, k)
  {
    if k > 0 {
      NoBits(k - 1);
    }
  }

  lemma {:induction false} AndNotZero(x: nat)
    ensures AndNot(x, 0) == x
  {
    if x > 0 {
      AndNotZero(x / 2);
    }
  }

  /** RTA_OK */
  predicate Ok(b: seq<byte>, at: nat, len: int) {
    len >= HDR && at + HDR <= |b| && HDR <= RtaLen(b, at) <= len
  }

  /** tb[t] after the loop, from `at` on with `len` bytes to go: the first attribute of type t it stands at. */
  function Find(b: seq<byte>, at: nat, len: int, t: nat, flags: nat): (f: Option<nat>)
    ensures f.Some? ==> f.value + HDR <= |b| && HDR <= RtaLen(b, f.value)
    ensures f.Some? && at + len <= |b| ==> f.value + RtaLen(b, f.value) <= |b|
    decreases if len < 0 then 0 else len
  {
    if !Ok(b, at, len) then None
    else if AndNot(RtaType(b, at), flags) == t then Some(at)
    else Find(b, at + Align(RtaLen(b, at)), len - Align(RtaLen(b, at)), t, flags)
  }

  /** Every header the loop looks at lies in b. */
  ghost predicate Readable(b: seq<byte>, at: nat, len: int)
    decreases if len < 0 then 0 else len
  {
    len >= HDR ==>
      at + HDR <= |b| && (Ok(b, at, len) ==> Readable(b, at + Align(RtaLen(b, at)), len - Align(RtaLen(b, at))))
  }

  lemma {:induction false} InsideReadable(b: seq<byte>, at: nat, len: int)
    requires at + len <= |b|
    ensures Readable(b, at, len)
    decreases if len < 0 then 0 else len
  {
    if Ok(b, at, len) {
      InsideReadable(b, at + Align(RtaLen(b, at)), len - Align(RtaLen(b, at)));
    }
  }

  function Deficit(b: seq<byte>, at: nat, len: int): int
    decreases if len < 0 then 0 else len
  {
    if !Ok(b, at, len) then len else Deficit(b, at + Align(RtaLen(b, at)), len - Align(RtaLen(b, at)))
  }

  // ----- what the loop stands at, for any bytes

  /** What attributes with these lengths take, each rounded up to a multiple of four. */
  function Taken(lens: seq<nat>): nat { if lens == [] then 0 else (lens[0] + 3) / 4 * 4 + Taken(lens[1..]) }

  /** Header i lies behind those before it, with its length inside what is left of len. */
  predicate StandsAt(b: seq<byte>, at: nat, len: int, lens: seq<nat>, i: nat)
    requires i < |lens|
  {
    var n := Taken(lens[..i]);
    at + n + HDR <= |b| && RtaLen(b, at + n) == lens[i] && HDR <= lens[i] <= len - n
  }

  ghost predicate Stands(b: seq<byte>, at: nat, len: int, lens: seq<nat>) {
    forall i :: 0 <= i < |lens| ==> StandsAt(b, at, len, lens, i)
  }

  lemma StandsTail(b: seq<byte>, at: nat, len: int, n: nat, rest: seq<nat>, i: nat)
    requires i < |rest| && StandsAt(b, at + (n + 3) / 4 * 4, len - (n + 3) / 4 * 4, rest, i)
    ensures StandsAt(b, at, len, [n] + rest, i + 1)
  {
    var lens := [n] + rest;
    assert lens[..i + 1][1..] == rest[..i] && lens[..i + 1][0] == n;
    assert Taken(lens[..i + 1]) == (n + 3) / 4 * 4 + Taken(rest[..i]);
  }

  lemma StandsCons(b: seq<byte>, at: nat, len: int, rest: seq<nat>)
    requires Ok(b, at, len) && Stands(b, at + Align(RtaLen(b, at)), len - Align(RtaLen(b, at)), rest)
    ensures Stands(b, at, len, [RtaLen(b, at)] + rest)
    ensures Taken([RtaLen(b, at)] + rest) == Align(RtaLen(b, at)) + Taken(rest)
  {
    var n := RtaLen(b, at);
    AlignMacro(n);
    assert ([n] + rest)[1..] == rest;
    forall i | 0 <= i < 1 + |rest|
      ensures StandsAt(b, at, len, [n] + rest, i)
    {
      if i > 0 {
        StandsTail(b, at, len, n, rest, i - 1);
      } else {
        assert ([n] + rest)[..0] == [];
      }
    }
  }

  /** The type of header i, the flags aside. */
  function TypeAt(b: seq<byte>, at: nat, lens: seq<nat>, i: nat, flags: nat): int
    requires i < |lens|
  {
    var p := at + Taken(lens[..i]);
    if p + HDR <= |b| then AndNot(RtaType(b, p), flags) else -1
  }

  /** The attributes the loop stands at, with lengths lens, lie one behind the other. It ends where what is left is too
      short for a header or for what the header says, and that much is the deficit. */
  ghost predicate Walked(b: seq<byte>, at: nat, len: int, lens: seq<nat>) {
    && Stands(b, at, len, lens) && Deficit(b, at, len) == len - Taken(lens)
    && (var p, rest := at + Taken(lens), len - Taken(lens);
        rest < HDR || p + HDR > |b| || RtaLen(b, p) < HDR || RtaLen(b, p) > rest)
  }

  /** Slot t gets the first of them that has type t, which is number i, or none if i is past the last. */
  ghost predicate Fills(b: seq<byte>, at: nat, len: int, lens: seq<nat>, t: nat, flags: nat, i: nat) {
    && i <= |lens| && (forall j :: 0 <= j < i ==> TypeAt(b, at, lens, j, flags) != t)
    && (i < |lens| ==> TypeAt(b, at, lens, i, flags) == t)
    && Find(b, at, len, t, flags) == if i < |lens| then Some(at + Taken(lens[..i])) else None
  }

  lemma TypeTail(b: seq<byte>, at: nat, n: nat, rest: seq<nat>, j: nat, flags: nat)
    requires j < |rest|
    ensures Taken(([n] + rest)[..j + 1]) == (n + 3) / 4 * 4 + Taken(rest[..j])
    ensures TypeAt(b, at, [n] + rest, j + 1, flags) == TypeAt(b, at + (n + 3) / 4 * 4, rest, j, flags)
  {
    var lens := [n] + rest;
    assert lens[..j + 1][1..] == rest[..j] && lens[..j + 1][0] == n;
  }

  lemma TypeHead(b: seq<byte>, at: nat, n: nat, rest: seq<nat>, flags: nat)
    requires at + HDR <= |b|
    ensures Taken(([n] + rest)[..0]) == 0 && TypeAt(b, at, [n] + rest, 0, flags) == AndNot(RtaType(b, at), flags)
  {
    assert ([n] + rest)[..0] == [];
  }

  lemma FillsNow(b: seq<byte>, at: nat, len: int, rest: seq<nat>, t: nat, flags: nat)
    requires Ok(b, at, len) && AndNot(RtaType(b, at), flags) == t
    ensures Fills(b, at, len, [RtaLen(b, at)] + rest, t, flags, 0)
  {
    TypeHead(b, at, RtaLen(b, at), rest, flags);
  }

  lemma FillsLater(b: seq<byte>, at: nat, len: int, rest: seq<nat>, t: nat, flags: nat, i: nat)
    requires Ok(b, at, len) && AndNot(RtaType(b, at), flags) != t
    requires var n := Align(RtaLen(b, at)); Fills(b, at + n, len - n, rest, t, flags, i)
    ensures Fills(b, at, len, [RtaLen(b, at)] + rest, t, flags, i + 1)
  {
    var n := RtaLen(b, at);
    AlignMacro(n);
    TypeHead(b, at, n, rest, flags);
    forall j | 0 <= j < |rest|
      ensures TypeAt(b, at, [n] + rest, j + 1, flags) == TypeAt(b, at + Align(n), rest, j, flags)
      ensures Taken(([n] + rest)[..j + 1]) == Align(n) + Taken(rest[..j])
    {
      TypeTail(b, at, n, rest, j, flags);
    }
    forall j | 0 <= j < i + 1
      ensures TypeAt(b, at, [n] + rest, j, flags) != t
    {
      if j > 0 {
        assert TypeAt(b, at + Align(n), rest, j - 1, flags) != t;
        assert TypeAt(b, at, [n] + rest, (j - 1) + 1, flags) != t;
      }
    }
  }

  /** The parser's loop on any bytes. */
  lemma {:induction false} ParsingIs(b: seq<byte>, at: nat, len: int, t: nat, flags: nat)
    returns (lens: seq<nat>, i: nat)
    ensures Walked(b, at, len, lens) && Fills(b, at, len, lens, t, flags, i)
    decreases if len < 0 then 0 else len
  {
    lens, i := [], 0;
    if Ok(b, at, len) {
      var n, rest := Align(RtaLen(b, at)), [];
      rest, i := ParsingIs(b, at + n, len - n, t, flags);
      StandsCons(b, at, len, rest);
      lens := [RtaLen(b, at)] + rest;
      if AndNot(RtaType(b, at), flags) == t {
        i := 0;
        FillsNow(b, at, len, rest, t, flags);
      } else {
        FillsLater(b, at, len, rest, t, flags, i);
        i := i + 1;
      }
    }
  }

  // ----- round trip, one level

  /** Where the first attribute of type t starts in an encoding, and which it is. */
  function Seek(s: seq<Attr>, t: nat, flags: nat, at: nat): Option<(nat, Attr)> {
    if s == [] then None
    else if AndNot(s[0].kind, flags) == t then Some((at, s[0])) else Seek(s[1..], t, flags, at + Size(s[0]))
  }

  /** The first attribute of type t, by its own type. */
  function SeekKind(s: seq<Attr>, t: nat, at: nat): Option<(nat, Attr)> {
    if s == [] then None else if s[0].kind == t then Some((at, s[0])) else SeekKind(s[1..], t, at + Size(s[0]))
  }

  /** Without flags the type is that of the attribute. */
  lemma {:induction false} SeekPlain(s: seq<Attr>, t: nat, at: nat)
    ensures Seek(s, t, 0, at) == SeekKind(s, t, at)
  {
    if s != [] {
      AndNotZero(s[0].kind);
      SeekPlain(s[1..], t, at + Size(s[0]));
    }
  }

  lemma {:induction false} HeaderOf(b: seq<byte>, at: nat, a: Attr)
    requires Encodes(b, at, a)
    ensures RtaType(b, at) == a.kind && HDR <= RtaLen(b, at) <= Size(a) && Align(RtaLen(b, at)) == Size(a)
  {
    SizeAligned(a);
    if a.Plain? {
      AlignAdd(HDR, |a.data|);
    }
  }

  /** Walking an encoding leaves nothing over. */
  lemma {:induction false} NoDeficit(b: seq<byte>, at: nat, s: seq<Attr>)
    requires EncodesAll(b, at, s)
    ensures Deficit(b, at, SizeAll(s)) == 0
    decreases s
  {
    if s != [] {
      HeaderOf(b, at, s[0]);
      NoDeficit(b, at + Size(s[0]), s[1..]);
    }
  }

  /** Slot tb[t] holds the attribute that Seek names, where it was put. */
  predicate Found(b: seq<byte>, f: Option<nat>, k: Option<(nat, Attr)>) {
    (f.None? <==> k.None?) && (k.Some? ==> f.value == k.value.0 && Encodes(b, f.value, k.value.1))
  }

  lemma {:induction false} FindsAll(b: seq<byte>, at: nat, s: seq<Attr>, t: nat, flags: nat)
    requires EncodesAll(b, at, s)
    ensures Found(b, Find(b, at, SizeAll(s), t, flags), Seek(s, t, flags, at))
    decreases s
  {
    if s != [] {
      HeaderOf(b, at, s[0]);
      FindsAll(b, at + Size(s[0]), s[1..], t, flags);
    }
  }

  /** parse_rtattr: the attribute in slot t is the first whose type is t. */
  lemma {:induction false} FindsKind(b: seq<byte>, at: nat, s: seq<Attr>, t: nat)
    requires EncodesAll(b, at, s)
    ensures Found(b, Find(b, at, SizeAll(s), t, 0), SeekKind(s, t, at))
  {
    FindsAll(b, at, s, t, 0);
    SeekPlain(s, t, at);
  }

  // ----- round trip, any depth

  /** parse_rtattr_nested, or parse_rtattr_nested_compat with the length of the fixed part. */
  datatype Hop = Into(kind: nat) | IntoCompat(kind: nat, fixed: nat)

  /** RTA_PAYLOAD, which is unsigned: a length below four gives a very large one. */
  function PayloadSize(b: seq<byte>, f: nat): nat
    requires f + HDR <= |b|
  {
    (RtaLen(b, f) - HDR) % 0x1_0000_0000_0000_0000
  }

  /** Where a compat nest is opened, the header of the nest can be read. */
  predicate HopReadable(b: seq<byte>, f: nat, hop: Hop) {
    && f + HDR <= |b|
    && (hop.IntoCompat? && PayloadSize(b, f) >= hop.fixed && PayloadSize(b, f) >= Align(hop.fixed) + HDR ==>
          f + HDR + Align(hop.fixed) + HDR <= |b|)
  }

  /** The bytes the nested parser is given: where they start, and how many. */
  function Payload(b: seq<byte>, f: nat, hop: Hop): Option<(nat, int)>
    requires HopReadable(b, f, hop)
  {
    var n := PayloadSize(b, f);
    if hop.Into? then Some((f + HDR, RtaLen(b, f) - HDR))
    else if n < hop.fixed then None
    else if n < Align(hop.fixed) + HDR then Some((f, 0))
    else
      var inner := f + HDR + Align(hop.fixed);
      Some((inner + HDR, RtaLen(b, inner) - HDR))
  }

  lemma PayloadSmall(x: int)
    requires -4 <= x < 65536
    ensures x % 0x1_0000_0000_0000_0000 == if x < 0 then x + 0x1_0000_0000_0000_0000 else x
  {
    if x < 0 {
      assert x + 0x1_0000_0000_0000_0000 == x % 0x1_0000_0000_0000_0000;
    }
  }

  /** A compat nest is refused exactly if its length says that the fixed part is missing. Nothing is parsed if that is
      all there is; otherwise the nest is what the header behind the padded fixed part says. */
  lemma CompatIs(b: seq<byte>, f: nat, fixed: nat, kind: nat)
    requires HopReadable(b, f, IntoCompat(kind, fixed)) && fixed < 0x8000_0000
    ensures var n, pad, p := RtaLen(b, f), Align(fixed), Payload(b, f, IntoCompat(kind, fixed));
      && (p.None? <==> HDR <= n < HDR + fixed)
      && (HDR + fixed <= n < HDR + pad + HDR ==> p == Some((f, 0)))
      && (HDR + pad + HDR <= n ==>
            f + HDR + pad + HDR <= |b| && p == Some((f + HDR + pad + HDR, RtaLen(b, f + HDR + pad) - HDR)))
  {
    PayloadSmall(RtaLen(b, f) - HDR);
  }

  /** Parsing along a path, then looking up a type; nothing is looked up past the end of b. */
  function Get(b: seq<byte>, at: nat, len: int, path: seq<Hop>, t: nat): Option<nat>
    requires at + len <= |b|
    decreases path
  {
    if path == [] then Find(b, at, len, t, 0)
    else
      var f := Find(b, at, len, path[0].kind, 0);
      if f.None? then None
      else
        var p := Payload(b, f.value, path[0]);
        if p.None? || p.value.0 + p.value.1 > |b| then None else Get(b, p.value.0, p.value.1, path[1..], t)
  }

  /** Where what is inside a nest at o starts. */
  function Kids(o: nat, a: Attr): nat { o + HDR + (if a.Compat? then Align(|a.data|) + HDR else 0) }

  /** The same on the tree. */
  function Reach(s: seq<Attr>, at: nat, path: seq<Hop>, t: nat): Option<(nat, Attr)>
    decreases path
  {
    if path == [] then SeekKind(s, t, at)
    else
      var k := SeekKind(s, path[0].kind, at);
      if k.None? || k.value.1.Plain? then None
      else
        var (o, a) := k.value;
        Reach(a.kids, Kids(o, a), path[1..], t)
  }

  /** The reader knows the tree: it opens nests as nests, and compat nests with the size of their fixed part. */
  predicate Knows(s: seq<Attr>, path: seq<Hop>)
    decreases path
  {
    path != [] ==>
      var k := SeekKind(s, path[0].kind, 0);
      k.Some? ==>
        var a := k.value.1;
        && (if path[0].Into? then a.Nest? else a.Compat? && |a.data| == path[0].fixed)
        && Knows(a.kids, path[1..])
  }

  lemma {:induction false} SeekShift(s: seq<Attr>, t: nat, at: nat, at': nat)
    ensures var k, k' := SeekKind(s, t, at), SeekKind(s, t, at');
      (k.None? <==> k'.None?) && (k.Some? ==> k.value.1 == k'.value.1)
  {
    if s != [] {
      SeekShift(s[1..], t, at + Size(s[0]), at' + Size(s[0]));
    }
  }

  /** Every attribute, at any depth, is found where it was laid out, and nothing else is found. */
  lemma {:induction false} Parses(b: seq<byte>, at: nat, s: seq<Attr>, path: seq<Hop>, t: nat)
    requires EncodesAll(b, at, s) && Knows(s, path)
    ensures Found(b, Get(b, at, SizeAll(s), path, t), Reach(s, at, path, t))
    decreases path
  {
    if path == [] {
      FindsKind(b, at, s, t);
    } else {
      var t0 := path[0].kind;
      FindsKind(b, at, s, t0);
      SeekShift(s, t0, at, 0);
      var k := SeekKind(s, t0, at);
      if k.Some? {
        var (o, a) := k.value;
        Opened(b, o, a, path[0]);
        Parses(b, Kids(o, a), a.kids, path[1..], t);
      }
    }
  }

  lemma {:induction false} Opened(b: seq<byte>, o: nat, a: Attr, hop: Hop)
    requires Encodes(b, o, a) && if hop.Into? then a.Nest? else a.Compat? && |a.data| == hop.fixed
    ensures Payload(b, o, hop) == Some((Kids(o, a), SizeAll(a.kids))) && EncodesAll(b, Kids(o, a), a.kids)
  {
    if a.Compat? {
      assert Inner(b, o + HDR + Align(|a.data|), a.kind, a.kids);
    }
  }
}
