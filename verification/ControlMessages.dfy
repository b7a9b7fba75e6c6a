/** cmsghdr_from_user_compat_to_kern (net/compat.c:88-206): 32-bit control messages, copied into the 64-bit layout. */
module ControlMessages {
  import opened Basics
  import opened Attributes

  const EFAULT: int := -14
  const EINVAL: int := -22
  const ENOBUFS: int := -105

  /** sizeof(struct compat_cmsghdr) and sizeof(struct cmsghdr) */
  const UHDR: nat := 12
  const KHDR: nat := 16

  const TWO32: nat := 0x1_0000_0000
  const TWO64: nat := 0x1_0000_0000_0000_0000

  /** User memory as one pass reads it: it reads no byte twice, so what other threads do meanwhile shows up as another
      memory for the other pass. None, and any address past the end, is a page fault. */
  type UserMem = seq<Option<byte>>

  datatype Result<+T> = Ok(value: T) | Err(code: int)

  /** Level and type are copied as they are. */
  datatype Msg = Msg(level: seq<byte>, kind: seq<byte>, data: seq<byte>)

  /** CMSG_ALIGN */
  function Align8(n: nat): (r: nat)
    ensures n <= r < n + 8
  {
    if n == 0 then 0 else if n < 8 then 8 else 8 + Align8(n - 8)
  }

  lemma {:induction false} Align8Macro(n: nat)
    ensures Align8(n) == (n + 7) / 8 * 8
  {
    if n >= 8 {
      Align8Macro(n - 8);
    }
  }

  // ----- little-endian numbers

  function Le(n: nat, x: nat): (r: seq<byte>)
    ensures |r| == n
  {
    if n == 0 then [] else [x % 256] + Le(n - 1, x / 256)
  }

  function Value(b: seq<byte>): nat { if b == [] then 0 else (b[0] as int) + 256 * Value(b[1..]) }

  function Pow256(n: nat): nat { if n == 0 then 1 else 256 * Pow256(n - 1) }

  lemma {:induction false} LeValue(n: nat, x: nat)
    requires x < Pow256(n)
    ensures Value(Le(n, x)) == x
  {
    if n > 0 {
      LeValue(n - 1, x / 256);
      assert Le(n, x)[1..] == Le(n - 1, x / 256);
    }
  }

  lemma {:induction false} ValueBound(b: seq<byte>)
    ensures Value(b) < Pow256(|b|)
  {
    if b != [] {
      ValueBound(b[1..]);
    }
  }

  // ----- the two walks over user memory

  function At(u: UserMem, a: nat): Option<byte> { if a < |u| then u[a] else None }

  function Get(u: UserMem, at: nat, n: nat): (r: Option<seq<byte>>)
    ensures r.Some? ==> |r.value| == n
    decreases n
  {
    if n == 0 then Some([])
    else
      var b, rest := At(u, at), Get(u, at + 1, n - 1);
      if b.None? || rest.None? then None else Some([b.value] + rest.value)
  }

  /** CMSG_COMPAT_OK */
  predicate Sane(len: nat, ctl: nat, at: nat) { UHDR <= len && at + len <= ctl }

  function First(ctl: nat): Option<nat> { if ctl >= UHDR then Some(0) else None }

  /** cmsg_compat_nxthdr */
  function Next(ctl: nat, at: nat, len: nat): Option<nat> {
    if at + Align(len) + 1 > ctl then None else Some(at + Align(len))
  }

  /** The next multiple of four, in CMSG_COMPAT_ALIGN. */
  function Pad4(n: nat): nat { (n + 3) / 4 * 4 }

  /** The next header is behind the message and its padding, if that is inside the ctl bytes. */
  lemma NextIs(ctl: nat, at: nat, len: nat)
    ensures Next(ctl, at, len) == if at + Pad4(len) < ctl then Some(at + Pad4(len)) else None
  {
    AlignMacro(len);
  }

  function Left(ctl: nat, at: Option<nat>): nat { if at.Some? && at.value < ctl then ctl - at.value else 0 }

  function Space(len: nat): nat
    requires len >= UHDR
  {
    Align8(len - UHDR + KHDR)
  }

  /** cmsg_len of the header at `at`, read and checked. */
  function Length(u: UserMem, ctl: nat, at: nat): (r: Result<nat>)
    ensures if r.Ok? then Sane(r.value, ctl, at) else r.code in {EFAULT, EINVAL}
  {
    var n := Get(u, at, 4);
    if n.None? then Err(EFAULT)
    else if !Sane(Value(n.value), ctl, at) then Err(EINVAL)
    else Ok(Value(n.value))
  }

  /** The first pass: how much room the 64-bit messages take, or which error. */
  function Total(u: UserMem, ctl: nat, at: Option<nat>): (r: Result<nat>)
    ensures r.Err? ==> r.code in {EFAULT, EINVAL}
    decreases Left(ctl, at), if at.Some? then 1 else 0
  {
    if at.None? then Ok(0)
    else
      var n := Length(u, ctl, at.value);
      if n.Err? then n
      else
        var rest := Total(u, ctl, Next(ctl, at.value, n.value));
        if rest.Err? then rest else Ok(Space(n.value) + rest.value)
  }

  /** The rest of a message, after its length. */
  function Fetch(u: UserMem, at: nat, len: nat): (r: Option<Msg>)
    requires len >= UHDR
    ensures r.Some? ==> Space(len) == Align8(KHDR + |r.value.data|) && |r.value.level| == 4 && |r.value.kind| == 4
  {
    var l, t, d := Get(u, at + 4, 4), Get(u, at + 8, 4), Get(u, at + UHDR, len - UHDR);
    if l.None? || t.None? || d.None? then None else Some(Msg(l.value, t.value, d.value))
  }

  /** One message of the second pass, if it fits in `room` bytes, and its length in user memory. */
  function ReadOne(u: UserMem, ctl: nat, at: nat, room: nat): (r: Result<(Msg, nat)>)
    ensures r.Ok? ==> Length(u, ctl, at) == Ok(r.value.1) && Space(r.value.1) <= room
    ensures r.Ok? ==> Fetch(u, at, r.value.1) == Some(r.value.0)
    ensures r.Err? ==> r.code in {EFAULT, EINVAL}
  {
    var n := Length(u, ctl, at);
    if n.Err? then Err(n.code)
    else if room < Space(n.value) then Err(EINVAL)
    else
      var m := Fetch(u, at, n.value);
      if m.None? then Err(EFAULT) else Ok((m.value, n.value))
  }

  /** The second pass: the messages it reads as long as they fit in `room` bytes. */
  function Messages(u: UserMem, ctl: nat, at: Option<nat>, room: nat): (r: Result<seq<Msg>>)
    ensures r.Err? ==> r.code in {EFAULT, EINVAL}
    decreases Left(ctl, at), if at.Some? then 1 else 0
  {
    if at.None? then Ok([])
    else
      var r := ReadOne(u, ctl, at.value, room);
      if r.Err? then Err(r.code)
      else
        var rest := Messages(u, ctl, Next(ctl, at.value, r.value.1), room - Space(r.value.1));
        if rest.Err? then rest else Ok([r.value.0] + rest.value)
  }

  // ----- what the user wrote

  /** These bytes are in user memory from `at` on. */
  predicate Mapped(u: UserMem, at: nat, b: seq<byte>)
    decreases b
  {
    b != [] ==> At(u, at) == Some(b[0]) && Mapped(u, at + 1, b[1..])
  }

  /** The 32-bit layout of a message. */
  ghost predicate UserMsg(u: UserMem, at: nat, m: Msg) { forall o :: Open(o) ==> UserLaid(u, at, m) }

  predicate UserLaid(u: UserMem, at: nat, m: Msg) {
    && |m.level| == 4 && |m.kind| == 4 && UHDR + |m.data| < TWO32
    && Mapped(u, at, Le(4, UHDR + |m.data|)) && Mapped(u, at + 4, m.level) && Mapped(u, at + 8, m.kind)
    && Mapped(u, at + UHDR, m.data)
  }

  /** What the walk meets from `at` on. */
  ghost predicate Chain(u: UserMem, ctl: nat, at: Option<nat>, ms: seq<Msg>)
    decreases ms
  {
    if at.None? then ms == []
    else
      && ms != [] && UserMsg(u, at.value, ms[0]) && at.value + UHDR + |ms[0].data| <= ctl
      && Chain(u, ctl, Next(ctl, at.value, UHDR + |ms[0].data|), ms[1..])
  }

  /** What these messages take in the 32-bit layout: each is padded to a multiple of four. */
  function Extent(ms: seq<Msg>): nat {
    if ms == [] then 0 else Pad4(UHDR + |ms[0].data|) + Extent(ms[1..])
  }

  /** Message i lies behind those before it, and inside the ctl bytes. */
  ghost predicate LiesAt(u: UserMem, ctl: nat, at: nat, ms: seq<Msg>, i: nat)
    requires i < |ms|
  {
    var p := at + Extent(ms[..i]);
    UserMsg(u, p, ms[i]) && p + UHDR + |ms[i].data| <= ctl
  }

  ghost predicate Lie(u: UserMem, ctl: nat, at: nat, ms: seq<Msg>) {
    forall i :: 0 <= i < |ms| ==> LiesAt(u, ctl, at, ms, i)
  }

  /** From `at` on there are these messages, and no room for a byte of another. */
  ghost predicate Layout(u: UserMem, ctl: nat, at: nat, ms: seq<Msg>) {
    ms != [] && Lie(u, ctl, at, ms) && at + Extent(ms) >= ctl
  }

  /** The control buffer of ctl bytes holds these messages. */
  ghost predicate UserList(u: UserMem, ctl: nat, ms: seq<Msg>) {
    if ctl < UHDR then ms == [] else Layout(u, ctl, 0, ms)
  }

  lemma LiesTail(u: UserMem, ctl: nat, at: nat, ms: seq<Msg>, i: nat)
    requires 0 < i < |ms|
    ensures LiesAt(u, ctl, at, ms, i) <==> LiesAt(u, ctl, at + Pad4(UHDR + |ms[0].data|), ms[1..], i - 1)
  {
    assert ms[..i][1..] == ms[1..][..i - 1];
  }

  lemma LieFirst(u: UserMem, ctl: nat, at: nat, ms: seq<Msg>)
    requires ms != []
    ensures Lie(u, ctl, at, ms) <==>
      && UserMsg(u, at, ms[0]) && at + UHDR + |ms[0].data| <= ctl
      && Lie(u, ctl, at + Pad4(UHDR + |ms[0].data|), ms[1..])
  {
    var next := at + Pad4(UHDR + |ms[0].data|);
    assert ms[..0] == [];
    assert LiesAt(u, ctl, at, ms, 0) <==> UserMsg(u, at, ms[0]) && at + UHDR + |ms[0].data| <= ctl;
    forall i | 0 < i < |ms|
      ensures LiesAt(u, ctl, at, ms, i) <==> LiesAt(u, ctl, next, ms[1..], i - 1)
    {
      LiesTail(u, ctl, at, ms, i);
    }
    forall i | 0 <= i < |ms[1..]|
      ensures LiesAt(u, ctl, at, ms, i + 1) <==> LiesAt(u, ctl, next, ms[1..], i)
    {
      LiesTail(u, ctl, at, ms, i + 1);
    }
  }

  lemma LayoutFirst(u: UserMem, ctl: nat, at: nat, ms: seq<Msg>)
    requires ms != []
    ensures var next := at + Pad4(UHDR + |ms[0].data|);
      Layout(u, ctl, at, ms) <==>
        && UserMsg(u, at, ms[0]) && at + UHDR + |ms[0].data| <= ctl
        && if next >= ctl then |ms| == 1 else Layout(u, ctl, next, ms[1..])
  {
    LieFirst(u, ctl, at, ms);
    if |ms| > 1 {
      LieFirst(u, ctl, at + Pad4(UHDR + |ms[0].data|), ms[1..]);
    } else {
      assert ms[1..] == [] && Extent(ms) == Pad4(UHDR + |ms[0].data|) + Extent(ms[1..]);
      assert Lie(u, ctl, at + Pad4(UHDR + |ms[0].data|), ms[1..]);
    }
  }

  /** The walk from header to header meets a list exactly if it is laid out so. */
  lemma {:induction false} ChainIs(u: UserMem, ctl: nat, at: nat, ms: seq<Msg>)
    ensures Chain(u, ctl, Some(at), ms) <==> Layout(u, ctl, at, ms)
    decreases ms
  {
    if ms != [] {
      var len := UHDR + |ms[0].data|;
      NextIs(ctl, at, len);
      LayoutFirst(u, ctl, at, ms);
      if at + Pad4(len) < ctl {
        ChainIs(u, ctl, at + Pad4(len), ms[1..]);
      }
    }
  }

  lemma {:induction false} GetMapped(u: UserMem, at: nat, b: seq<byte>)
    ensures Get(u, at, |b|) == Some(b) <==> Mapped(u, at, b)
    decreases b
  {
    if b != [] {
      GetMapped(u, at + 1, b[1..]);
      assert b == [b[0]] + b[1..];
      var r := Get(u, at + 1, |b| - 1);
      if Get(u, at, |b|) == Some(b) {
        assert r.value == b[1..];
      }
    }
  }

  lemma {:induction false} LeOfValue(b: seq<byte>)
    ensures Le(|b|, Value(b)) == b
  {
    if b != [] {
      LeOfValue(b[1..]);
    }
  }

  lemma LengthIs(u: UserMem, ctl: nat, at: nat, len: nat)
    ensures Length(u, ctl, at) == Ok(len) <==> len < TWO32 && Mapped(u, at, Le(4, len)) && Sane(len, ctl, at)
  {
    assert Pow256(4) == TWO32;
    GetMapped(u, at, Le(4, len));
    if len < TWO32 {
      LeValue(4, len);
    }
    var b := Get(u, at, 4);
    if b.Some? {
      ValueBound(b.value);
      LeOfValue(b.value);
    }
  }

  lemma FetchIs(u: UserMem, at: nat, m: Msg)
    requires |m.level| == 4 && |m.kind| == 4
    ensures Fetch(u, at, UHDR + |m.data|) == Some(m) <==>
      Mapped(u, at + 4, m.level) && Mapped(u, at + 8, m.kind) && Mapped(u, at + UHDR, m.data)
  {
    GetMapped(u, at + 4, m.level);
    GetMapped(u, at + 8, m.kind);
    GetMapped(u, at + UHDR, m.data);
  }

  lemma ReadOneIs(u: UserMem, ctl: nat, at: nat, room: nat, m: Msg)
    ensures ReadOne(u, ctl, at, room) == Ok((m, UHDR + |m.data|)) <==>
      UserMsg(u, at, m) && at + UHDR + |m.data| <= ctl && Align8(KHDR + |m.data|) <= room
  {
    assert Open(0);
    LengthIs(u, ctl, at, UHDR + |m.data|);
    if |m.level| == 4 && |m.kind| == 4 {
      FetchIs(u, at, m);
    }
  }

  lemma MessagesStep(u: UserMem, ctl: nat, at: nat, room: nat, m: Msg, len: nat, ms: seq<Msg>)
    requires ReadOne(u, ctl, at, room) == Ok((m, len))
    ensures Messages(u, ctl, Some(at), room) == Ok([m] + ms)
       <==> Messages(u, ctl, Next(ctl, at, len), room - Space(len)) == Ok(ms)
  {
    var rest := Messages(u, ctl, Next(ctl, at, len), room - Space(len));
    if rest.Ok? && [m] + rest.value == [m] + ms {
      assert ([m] + rest.value)[1..] == rest.value && ([m] + ms)[1..] == ms;
    }
  }

  lemma MessagesHead(u: UserMem, ctl: nat, at: nat, room: nat, m: Msg, ms: seq<Msg>)
    requires Messages(u, ctl, Some(at), room) == Ok([m] + ms)
    ensures ReadOne(u, ctl, at, room) == Ok((m, UHDR + |m.data|))
  {
    assert ([m] + ms)[0] == m;
  }

  lemma {:induction false} MessagesGive(u: UserMem, ctl: nat, at: Option<nat>, room: nat, ms: seq<Msg>)
    requires Messages(u, ctl, at, room) == Ok(ms)
    ensures Chain(u, ctl, at, ms) && Room(ms) <= room
    decreases ms
  {
    if at.Some? {
      var m, rest := ms[0], ms[1..];
      var len := UHDR + |m.data|;
      assert ms == [m] + rest;
      MessagesHead(u, ctl, at.value, room, m, rest);
      ReadOneIs(u, ctl, at.value, room, m);
      MessagesStep(u, ctl, at.value, room, m, len, rest);
      MessagesGive(u, ctl, Next(ctl, at.value, len), room - Space(len), rest);
    }
  }

  lemma {:induction false} MessagesTake(u: UserMem, ctl: nat, at: Option<nat>, room: nat, ms: seq<Msg>)
    requires Chain(u, ctl, at, ms) && Room(ms) <= room
    ensures Messages(u, ctl, at, room) == Ok(ms)
    decreases ms
  {
    if at.Some? {
      var m, rest := ms[0], ms[1..];
      var len := UHDR + |m.data|;
      assert ms == [m] + rest;
      ReadOneIs(u, ctl, at.value, room, m);
      MessagesTake(u, ctl, Next(ctl, at.value, len), room - Space(len), rest);
      MessagesStep(u, ctl, at.value, room, m, len, rest);
    }
  }

  /** The second pass reads exactly the messages the user laid out, if there is room for them. */
  lemma {:induction false} MessagesAre(u: UserMem, ctl: nat, room: nat, ms: seq<Msg>)
    ensures Messages(u, ctl, First(ctl), room) == Ok(ms) <==> UserList(u, ctl, ms) && Room(ms) <= room
  {
    ChainIs(u, ctl, 0, ms);
    if Messages(u, ctl, First(ctl), room) == Ok(ms) {
      MessagesGive(u, ctl, First(ctl), room, ms);
    }
    if Chain(u, ctl, First(ctl), ms) && Room(ms) <= room {
      MessagesTake(u, ctl, First(ctl), room, ms);
    }
  }

  function Room(ms: seq<Msg>): nat { if ms == [] then 0 else Align8(KHDR + |ms[0].data|) + Room(ms[1..]) }

  /** With the memory unchanged the second pass takes exactly the room the first one counted. */
  lemma {:induction false} SameRoom(u: UserMem, ctl: nat, at: Option<nat>, room: nat)
    requires Total(u, ctl, at).Ok? && Messages(u, ctl, at, room).Ok?
    ensures Room(Messages(u, ctl, at, room).value) == Total(u, ctl, at).value
    decreases Left(ctl, at), if at.Some? then 1 else 0
  {
    if at.Some? {
      var len := Length(u, ctl, at.value).value;
      SameRoom(u, ctl, Next(ctl, at.value, len), room - Space(len));
    }
  }

  /** With the memory unchanged no message is too big for what the first pass counted. */
  lemma {:induction false} Fits(u: UserMem, ctl: nat, at: Option<nat>, room: nat)
    requires Total(u, ctl, at).Ok? && Total(u, ctl, at).value <= room
    ensures Messages(u, ctl, at, room).Err? ==> Messages(u, ctl, at, room).code == EFAULT
    decreases Left(ctl, at), if at.Some? then 1 else 0
  {
    if at.Some? {
      var len := Length(u, ctl, at.value).value;
      Fits(u, ctl, Next(ctl, at.value, len), room - Space(len));
    }
  }

  /** The count cannot overflow: it is less than twice the length of the user's buffer. */
  lemma {:induction false} TotalBound(u: UserMem, ctl: nat, at: Option<nat>)
    requires Total(u, ctl, at).Ok?
    ensures Total(u, ctl, at).value <= 2 * Left(ctl, at)
    decreases Left(ctl, at), if at.Some? then 1 else 0
  {
    if at.Some? {
      var len := Length(u, ctl, at.value).value;
      TotalBound(u, ctl, Next(ctl, at.value, len));
    }
  }

  // ----- the 64-bit layout

  /** The message lies in k from `at` on. */
  predicate Laid(k: seq<byte>, at: nat, m: Msg) {
    var n := KHDR + |m.data|;
    && |m.level| == 4 && |m.kind| == 4 && at + Align8(n) <= |k| && k[at..at + 8] == Le(8, n)
    && k[at + 8..at + 12] == m.level && k[at + 12..at + KHDR] == m.kind && k[at + KHDR..at + n] == m.data
  }

  /** The same, to be met only where a proof says Open. */
  ghost predicate Holds(k: seq<byte>, at: nat, m: Msg) { forall o :: Open(o) ==> Laid(k, at, m) }

  ghost predicate Lists(k: seq<byte>, at: nat, end: nat, ms: seq<Msg>)
    decreases ms
  {
    if ms == [] then at == end
    else Holds(k, at, ms[0]) && Lists(k, at + Align8(KHDR + |ms[0].data|), end, ms[1..])
  }

  function MsgAt(k: seq<byte>, at: nat, n: nat): Msg
    requires KHDR <= n && at + n <= |k|
  {
    Msg(k[at + 8..at + 12], k[at + 12..at + KHDR], k[at + KHDR..at + n])
  }

  /** Reading a control buffer from header to header. */
  function Walk(k: seq<byte>, at: nat): seq<Msg>
    decreases |k| - at
  {
    if at + KHDR > |k| then []
    else
      var n := Value(k[at..at + 8]);
      if n < KHDR || at + n > |k| then []
      else [MsgAt(k, at, n)] + (if at + Align8(n) > |k| then [] else Walk(k, at + Align8(n)))
  }

  lemma {:induction false} LaidLength(k: seq<byte>, at: nat, m: Msg)
    requires Laid(k, at, m) && KHDR + |m.data| < TWO64
    ensures Value(k[at..at + 8]) == KHDR + |m.data|
  {
    assert Pow256(8) == TWO64;
    LeValue(8, KHDR + |m.data|);
  }

  /** Walk, opened once. */
  lemma {:induction false} WalkOnce(k: seq<byte>, at: nat, n: nat, next: nat, rest: seq<Msg>)
    requires at + KHDR <= |k| && Value(k[at..at + 8]) == n && KHDR <= n && at + n <= |k|
    requires next == at + Align8(n) <= |k| && rest == Walk(k, next)
    ensures Walk(k, at) == [MsgAt(k, at, n)] + rest
  {
  }

  lemma {:induction false} WalkStep(k: seq<byte>, at: nat, m: Msg)
    requires Laid(k, at, m) && Value(k[at..at + 8]) == KHDR + |m.data|
    ensures Walk(k, at) == [m] + Walk(k, at + Align8(KHDR + |m.data|))
  {
    var n := KHDR + |m.data|;
    WalkOnce(k, at, n, at + Align8(n), Walk(k, at + Align8(n)));
  }

  lemma {:induction false} WalkHolds(k: seq<byte>, at: nat, m: Msg)
    requires Holds(k, at, m) && KHDR + |m.data| < TWO64
    ensures at + Align8(KHDR + |m.data|) <= |k| && Walk(k, at) == [m] + Walk(k, at + Align8(KHDR + |m.data|))
  {
    assert Open(0);
    LaidLength(k, at, m);
    WalkStep(k, at, m);
  }

  ghost predicate WalkGives(k: seq<byte>, at: nat, ms: seq<Msg>) { forall o :: Shown(o) ==> Walk(k, at) == ms }

  lemma WalkCons(k: seq<byte>, at: nat, m: Msg, rest: seq<Msg>)
    requires Holds(k, at, m) && KHDR + |m.data| < TWO64 && WalkGives(k, at + Align8(KHDR + |m.data|), rest)
    ensures WalkGives(k, at, [m] + rest)
  {
    assert Shown(0);
    WalkHolds(k, at, m);
  }

  lemma WalkEnd(k: seq<byte>)
    ensures WalkGives(k, |k|, [])
  {
  }

  lemma {:induction false} WalkFrom(k: seq<byte>, at: nat, ms: seq<Msg>)
    requires Lists(k, at, |k|, ms) && forall i :: 0 <= i < |ms| ==> KHDR + |ms[i].data| < TWO64
    ensures WalkGives(k, at, ms)
    decreases ms
  {
    if ms == [] {
      WalkEnd(k);
    } else {
      WalkFrom(k, at + Align8(KHDR + |ms[0].data|), ms[1..]);
      WalkCons(k, at, ms[0], ms[1..]);
      assert ms == [ms[0]] + ms[1..];
    }
  }

  /** Walking the buffer gives the list back. */
  lemma {:induction false} WalkLists(k: seq<byte>, at: nat, ms: seq<Msg>)
    requires Lists(k, at, |k|, ms) && forall i :: 0 <= i < |ms| ==> KHDR + |ms[i].data| < TWO64
    ensures Walk(k, at) == ms
  {
    WalkFrom(k, at, ms);
    assert Shown(0);
  }

  lemma {:induction false} RoomAligned(ms: seq<Msg>)
    ensures Room(ms) % 8 == 0
  {
    if ms != [] {
      Align8Macro(KHDR + |ms[0].data|);
      RoomAligned(ms[1..]);
    }
  }

  /** Every message lies behind the room of those before it, so every header is at a multiple of eight. */
  lemma {:induction false} HeadersAligned(k: seq<byte>, at: nat, end: nat, ms: seq<Msg>, i: nat)
    requires Lists(k, at, end, ms) && i < |ms|
    ensures Holds(k, at + Room(ms[..i]), ms[i]) && Room(ms[..i]) % 8 == 0
    decreases ms
  {
    RoomAligned(ms[..i]);
    if i > 0 {
      HeadersAligned(k, at + Align8(KHDR + |ms[0].data|), end, ms[1..], i - 1);
      assert ms[..i][1..] == ms[1..][..i - 1];
    }
  }

  lemma HoldsFrame(k: seq<byte>, k': seq<byte>, at: nat, end: nat, m: Msg)
    requires Holds(k, at, m) && at + Align8(KHDR + |m.data|) <= end && Same(k, k', 0, end)
    ensures Holds(k', at, m)
  {
    assert Open(0);
    var n := KHDR + |m.data|;
    assert k'[at..at + 8] == k[at..at + 8] && k'[at + 8..at + 12] == k[at + 8..at + 12];
    assert k'[at + 12..at + KHDR] == k[at + 12..at + KHDR] && k'[at + KHDR..at + n] == k[at + KHDR..at + n];
  }

  lemma {:induction false} ListsRoom(k: seq<byte>, at: nat, end: nat, ms: seq<Msg>)
    requires Lists(k, at, end, ms)
    ensures end == at + Room(ms)
    decreases ms
  {
    if ms != [] {
      ListsRoom(k, at + Align8(KHDR + |ms[0].data|), end, ms[1..]);
    }
  }

  lemma ListsOne(k: seq<byte>, at: nat, m: Msg)
    requires Holds(k, at, m)
    ensures Lists(k, at, at + Align8(KHDR + |m.data|), [m])
  {
    assert [m][1..] == [];
  }

  lemma ListsCons(k: seq<byte>, at: nat, end: nat, m: Msg, ms: seq<Msg>)
    requires Holds(k, at, m) && Lists(k, at + Align8(KHDR + |m.data|), end, ms)
    ensures Lists(k, at, end, [m] + ms)
  {
    assert ([m] + ms)[1..] == ms;
  }

  /** One more message at the end. */
  lemma {:induction false} ListsSnoc(k: seq<byte>, k': seq<byte>, at: nat, end: nat, ms: seq<Msg>, m: Msg)
    requires Lists(k, at, end, ms) && Same(k, k', 0, end) && Holds(k', end, m)
    ensures Lists(k', at, end + Align8(KHDR + |m.data|), ms + [m])
    decreases ms
  {
    if ms == [] {
      ListsOne(k', end, m);
      assert ms + [m] == [m];
    } else {
      var m0, rest := ms[0], ms[1..];
      var next := at + Align8(KHDR + |m0.data|);
      ListsRoom(k, next, end, rest);
      HoldsFrame(k, k', at, end, m0);
      ListsSnoc(k, k', next, end, rest, m);
      ListsCons(k', at, end + Align8(KHDR + |m.data|), m0, rest + [m]);
      assert ms + [m] == [m0] + (rest + [m]);
    }
  }

  // ----- the translation

  /** Writing w at `at` leaves the other bytes alone. */
  method Store(k: array<byte>, at: nat, w: seq<byte>)
    requires at + |w| <= k.Length
    modifies k
    ensures k[at..at + |w|] == w && Same(old(k[..]), k[..], 0, at) && Same(old(k[..]), k[..], at + |w|, k.Length)
  {
    var i := 0;
    while i < |w|
      invariant 0 <= i <= |w| && k[at..at + i] == w[..i]
      invariant Same(old(k[..]), k[..], 0, at) && Same(old(k[..]), k[..], at + |w|, k.Length)
    {
      k[at + i] := w[i];
      i := i + 1;
    }
  }

  lemma StoredAll(k: seq<byte>, k1: seq<byte>, k2: seq<byte>, k3: seq<byte>, k4: seq<byte>, at: nat, m: Msg)
    requires |m.level| == 4 && |m.kind| == 4 && at + Align8(KHDR + |m.data|) <= |k|
    requires Same(k, k1, 0, at) && |k1| == |k| && k1[at..at + 8] == Le(8, KHDR + |m.data|)
    requires Same(k1, k2, 0, at + 8) && k2[at + 8..at + 12] == m.level
    requires Same(k2, k3, 0, at + 12) && k3[at + 12..at + KHDR] == m.kind
    requires Same(k3, k4, 0, at + KHDR) && k4[at + KHDR..at + KHDR + |m.data|] == m.data
    ensures Holds(k4, at, m) && Same(k, k4, 0, at)
  {
    assert k4[at..at + 8] == k1[at..at + 8];
    assert k4[at + 8..at + 12] == k2[at + 8..at + 12];
    assert k4[at + 12..at + KHDR] == k3[at + 12..at + KHDR];
  }

  /** One message of the second pass, once it is read. */
  method StoreMsg(k: array<byte>, at: nat, m: Msg)
    requires |m.level| == 4 && |m.kind| == 4 && at + Align8(KHDR + |m.data|) <= k.Length
    modifies k
    ensures Holds(k[..], at, m) && Same(old(k[..]), k[..], 0, at)
  {
    ghost var k0 := k[..];
    Store(k, at, Le(8, KHDR + |m.data|));
    ghost var k1 := k[..];
    Store(k, at + 8, m.level);
    ghost var k2 := k[..];
    Store(k, at + 12, m.kind);
    ghost var k3 := k[..];
    Store(k, at + KHDR, m.data);
    StoredAll(k0, k1, k2, k3, k[..], at, m);
  }

  /** net/compat.c:134-149 */
  method Count(u: UserMem, ctl: nat) returns (r: Result<nat>)
    ensures r == Total(u, ctl, First(ctl))
  {
    var kcmlen := 0;
    var at: Option<nat> := First(ctl);
    while at.Some?
      invariant var rest := Total(u, ctl, at);
        Total(u, ctl, First(ctl)) == if rest.Err? then rest else Ok(kcmlen + rest.value)
      invariant kcmlen >= 0
      decreases Left(ctl, at), if at.Some? then 1 else 0
    {
      var n := Length(u, ctl, at.value);
      if n.Err? {
        return n;
      }
      kcmlen := kcmlen + Space(n.value);
      at := Next(ctl, at.value, n.value);
    }
    return Ok(kcmlen);
  }

  /** What the pass returns if it has read ms and stands at `at`. */
  function Collect(u: UserMem, ctl: nat, at: Option<nat>, room: nat, ms: seq<Msg>): Result<seq<Msg>>
    decreases Left(ctl, at), if at.Some? then 1 else 0
  {
    if at.None? then Ok(ms)
    else
      var r := ReadOne(u, ctl, at.value, room);
      if r.Err? then Err(r.code)
      else Collect(u, ctl, Next(ctl, at.value, r.value.1), room - Space(r.value.1), ms + [r.value.0])
  }

  /** What the pass has read, and then the rest. */
  ghost predicate Collects(u: UserMem, ctl: nat, at: Option<nat>, room: nat, ms: seq<Msg>) {
    forall o :: Shown(o) ==>
      var rest := Messages(u, ctl, at, room);
      Collect(u, ctl, at, room, ms) == if rest.Err? then rest else Ok(ms + rest.value)
  }

  lemma CollectsNone(u: UserMem, ctl: nat, room: nat, ms: seq<Msg>)
    ensures Collects(u, ctl, None, room, ms)
  {
    assert ms + [] == ms;
  }

  lemma CollectsErr(u: UserMem, ctl: nat, at: nat, room: nat, ms: seq<Msg>)
    requires ReadOne(u, ctl, at, room).Err?
    ensures Collects(u, ctl, Some(at), room, ms)
  {
  }

  lemma CollectsOk(u: UserMem, ctl: nat, at: nat, room: nat, ms: seq<Msg>, m: Msg, len: nat)
    requires ReadOne(u, ctl, at, room) == Ok((m, len))
    requires Collects(u, ctl, Next(ctl, at, len), room - Space(len), ms + [m])
    ensures Collects(u, ctl, Some(at), room, ms)
  {
    assert Shown(0);
    var rest := Messages(u, ctl, Next(ctl, at, len), room - Space(len));
    if rest.Ok? {
      assert ms + ([m] + rest.value) == (ms + [m]) + rest.value;
    }
  }

  lemma {:induction false} CollectMessages(u: UserMem, ctl: nat, at: Option<nat>, room: nat, ms: seq<Msg>)
    ensures Collects(u, ctl, at, room, ms)
    decreases Left(ctl, at), if at.Some? then 1 else 0
  {
    if at.None? {
      CollectsNone(u, ctl, room, ms);
    } else {
      var r := ReadOne(u, ctl, at.value, room);
      if r.Err? {
        CollectsErr(u, ctl, at.value, room, ms);
      } else {
        var (m, len) := r.value;
        CollectMessages(u, ctl, Next(ctl, at.value, len), room - Space(len), ms + [m]);
        CollectsOk(u, ctl, at.value, room, ms, m, len);
      }
    }
  }

  lemma CollectAll(u: UserMem, ctl: nat, at: Option<nat>, room: nat)
    ensures Collect(u, ctl, at, room, []) == Messages(u, ctl, at, room)
  {
    CollectMessages(u, ctl, at, room, []);
    assert Shown(0);
    var r := Messages(u, ctl, at, room);
    if r.Ok? {
      assert [] + r.value == r.value;
    }
  }

  /** net/compat.c:165-186: whatever the memory holds now, nothing is written past the buffer, and on success the
      buffer starts with exactly the messages this pass has read. */
  method CopyOver(u: UserMem, ctl: nat, k: array<byte>) returns (err: int, used: nat, ghost ms: seq<Msg>)
    modifies k
    ensures used <= k.Length && Lists(k[..], 0, used, ms)
    ensures Collect(u, ctl, First(ctl), k.Length, []) == if err != 0 then Err(err) else Ok(ms)
  {
    used, ms, err := 0, [], 0;
    var at: Option<nat> := First(ctl);
    while at.Some?
      invariant used <= k.Length && Lists(k[..], 0, used, ms)
      invariant Collect(u, ctl, at, k.Length - used, ms) == Collect(u, ctl, First(ctl), k.Length, [])
      decreases Left(ctl, at), if at.Some? then 1 else 0
    {
      var one;
      one, used, ms := CopyOne(u, ctl, at.value, k, used, ms);
      if one.Err? {
        return one.code, used, ms;
      }
      at := Next(ctl, at.value, one.value.1);
    }
  }

  /** One turn of that loop. */
  method CopyOne(u: UserMem, ctl: nat, at: nat, k: array<byte>, used: nat, ghost ms: seq<Msg>)
    returns (one: Result<(Msg, nat)>, used': nat, ghost ms': seq<Msg>)
    requires used <= k.Length && Lists(k[..], 0, used, ms)
    modifies k
    ensures one == ReadOne(u, ctl, at, k.Length - used) && Lists(k[..], 0, used', ms')
    ensures if one.Ok? then used' == used + Space(one.value.1) && ms' == ms + [one.value.0]
            else used' == used && ms' == ms
  {
    one, used', ms' := ReadOne(u, ctl, at, k.Length - used), used, ms;
    if one.Ok? {
      used', ms' := Append(k, used, ms, one.value.0);
    }
  }

  method Append(k: array<byte>, used: nat, ghost ms: seq<Msg>, m: Msg) returns (used': nat, ghost ms': seq<Msg>)
    requires used <= k.Length && Lists(k[..], 0, used, ms) && |m.level| == 4 && |m.kind| == 4
    requires used + Align8(KHDR + |m.data|) <= k.Length
    modifies k
    ensures used' == used + Align8(KHDR + |m.data|) && ms' == ms + [m] && Lists(k[..], 0, used', ms')
  {
    ghost var k0 := k[..];
    StoreMsg(k, used, m);
    ListsSnoc(k0, k[..], 0, used, ms, m);
    used', ms' := used + Align8(KHDR + |m.data|), ms + [m];
  }

  /** What the call comes to: `first` and `second` are the user's memory during the two passes, `stack` is the size of
      the caller's buffer, and `alloc` says whether a larger one can be had. */
  function Outcome(first: UserMem, second: UserMem, ctl: nat, stack: nat, alloc: bool): Result<seq<Msg>> {
    var total := Total(first, ctl, First(ctl));
    if total.Err? then Err(total.code)
    else if total.value == 0 then Err(EINVAL)
    else if total.value > stack && !alloc then Err(ENOBUFS)
    else
      var ms := Messages(second, ctl, First(ctl), total.value);
      if ms.Ok? && Room(ms.value) != total.value then Err(EINVAL) else ms
  }

  /** With the memory unchanged, what the first pass accepts the second can only fail to read. */
  lemma Stable(u: UserMem, ctl: nat, stack: nat, alloc: bool)
    requires var total := Total(u, ctl, First(ctl)); total.Ok? && total.value > 0 && (total.value <= stack || alloc)
    ensures var o := Outcome(u, u, ctl, stack, alloc);
      o == Err(EFAULT) || (o.Ok? && o == Messages(u, ctl, First(ctl), Total(u, ctl, First(ctl)).value))
  {
    var total := Total(u, ctl, First(ctl)).value;
    Fits(u, ctl, First(ctl), total);
    if Messages(u, ctl, First(ctl), total).Ok? {
      SameRoom(u, ctl, First(ctl), total);
    }
  }

  /** cmsghdr_from_user_compat_to_kern. Whatever the user's memory does, the buffer of a call that succeeds is filled to
      its last byte with the messages the second pass read, and walking it gives them back. */
  method FromUser(first: UserMem, second: UserMem, ctl: nat, stack: nat, alloc: bool) returns (err: int, k: array<byte>)
    ensures var o := Outcome(first, second, ctl, stack, alloc);
      if o.Err? then err == o.code
      else err == 0 && fresh(k) && Lists(k[..], 0, k.Length, o.value) && k.Length == Total(first, ctl, First(ctl)).value
           && UserList(second, ctl, o.value) && (ctl + 4 < TWO64 ==> Walk(k[..], 0) == o.value)
  {
    k := new byte[0];
    var total := Count(first, ctl);
    if total.Err? {
      return total.code, k;
    }
    if total.value == 0 {
      return EINVAL, k;
    }
    if total.value > stack && !alloc {
      return ENOBUFS, k;
    }
    k := new byte[total.value](_ => 0);
    var used;
    ghost var ms;
    err, used, ms := CopyOver(second, ctl, k);
    CollectAll(second, ctl, First(ctl), k.Length);
    MessagesAre(second, ctl, k.Length, ms);
    ListsRoom(k[..], 0, used, ms);
    if err == 0 && used != k.Length {
      return EINVAL, k;
    }
    if err == 0 && ctl + 4 < TWO64 {
      forall i | 0 <= i < |ms|
        ensures KHDR + |ms[i].data| < TWO64
      {
        assert LiesAt(second, ctl, 0, ms, i);
      }
      WalkLists(k[..], 0, ms);
    }
  }
}
