/**
 What the two passes of ControlMessages do to the user's bytes, said without following them: where each header lies, how
 a pass ends, and that a list laid out by the user is the list the kernel gets.
 */
module UserMessages {
  import opened Basics
  import Attributes
  import opened ControlMessages

  type byte = Attributes.byte

  // ----- bytes

  /** The four bytes of a __u32, the least first. */
  lemma FourBytes(x: nat)
    ensures Le(4, x) == [x % 256, x / 0x100 % 256, x / 0x1_0000 % 256, x / 0x100_0000 % 256]
  {
    assert Le(3, x / 256) == [x / 0x100 % 256] + Le(2, x / 0x1_0000);
    assert Le(2, x / 0x1_0000) == [x / 0x1_0000 % 256] + Le(1, x / 0x100_0000);
    assert Le(1, x / 0x100_0000) == [x / 0x100_0000 % 256] + Le(0, x / 0x1_0000_0000);
  }

  lemma {:induction false} LeSplit(m: nat, n: nat, x: nat)
    ensures Le(m + n, x) == Le(m, x) + Le(n, Shifted(m, x))
    decreases m
  {
    if m == 0 {
      assert [] + Le(n, x) == Le(n, x);
    } else {
      LeSplit(m - 1, n, x / 256);
    }
  }

  /** x >> 8 m */
  function Shifted(m: nat, x: nat): nat { if m == 0 then x else Shifted(m - 1, x / 256) }

  lemma DivTwice(x: nat)
    ensures x / 256 / 256 == x / 0x1_0000 && x / 0x1_0000 / 0x1_0000 == x / TWO32
  {
  }

  /** A __kernel_size_t is its low __u32 and then its high one. */
  lemma EightBytes(x: nat)
    ensures Le(8, x) == Le(4, x) + Le(4, x / TWO32)
  {
    LeSplit(4, 4, x);
    DivTwice(x);
    DivTwice(x / 0x1_0000);
    var y := x / 0x1_0000;
    assert Shifted(4, x) == Shifted(3, x / 256) == Shifted(2, y);
    assert Shifted(2, y) == Shifted(1, y / 256) == y / 256 / 256;
  }

  lemma {:induction false} MappedIs(u: UserMem, at: nat, b: seq<byte>)
    ensures Mapped(u, at, b) <==> forall a :: at <= a < at + |b| ==> At(u, a) == Some(b[a - at])
    decreases b
  {
    if b != [] {
      MappedIs(u, at + 1, b[1..]);
      assert At(u, at) == Some(b[0]) <==> At(u, at) == Some(b[at - at]);
    }
  }

  // ----- the first pass, without following it

  /** What headers with these lengths take, padded to multiples of four. */
  function Spread(lens: seq<nat>): nat { if lens == [] then 0 else Pad4(lens[0]) + Spread(lens[1..]) }

  /** The room of their messages in the 64-bit layout. */
  function Rooms(lens: seq<nat>): int {
    if lens == [] then 0 else (lens[0] - UHDR + KHDR + 7) / 8 * 8 + Rooms(lens[1..])
  }

  predicate Reads(u: UserMem, at: nat, len: nat) { len < TWO32 && Mapped(u, at, Le(4, len)) }

  predicate Readable(u: UserMem, at: nat, n: nat) { forall a :: at <= a < at + n ==> At(u, a).Some? }

  /** Header i lies behind those before it, and what it announces is inside the ctl bytes. */
  predicate HeaderAt(u: UserMem, ctl: nat, at: nat, lens: seq<nat>, i: nat)
    requires i < |lens|
  {
    var p := at + Spread(lens[..i]);
    Reads(u, p, lens[i]) && UHDR <= lens[i] && p + lens[i] <= ctl
  }

  ghost predicate Headers(u: UserMem, ctl: nat, at: nat, lens: seq<nat>) {
    forall i :: 0 <= i < |lens| ==> HeaderAt(u, ctl, at, lens, i)
  }

  lemma HeaderTail(u: UserMem, ctl: nat, at: nat, len: nat, rest: seq<nat>, i: nat)
    requires i < |rest| && HeaderAt(u, ctl, at + Pad4(len), rest, i)
    ensures HeaderAt(u, ctl, at, [len] + rest, i + 1)
  {
    var lens := [len] + rest;
    assert lens[..i + 1][1..] == rest[..i] && lens[..i + 1][0] == len;
    assert Spread(lens[..i + 1]) == Pad4(len) + Spread(rest[..i]);
  }

  lemma HeadersCons(u: UserMem, ctl: nat, at: nat, len: nat, rest: seq<nat>)
    requires Reads(u, at, len) && UHDR <= len && at + len <= ctl && Headers(u, ctl, at + Pad4(len), rest)
    ensures Headers(u, ctl, at, [len] + rest)
  {
    forall i | 0 <= i < 1 + |rest|
      ensures HeaderAt(u, ctl, at, [len] + rest, i)
    {
      if i > 0 {
        HeaderTail(u, ctl, at, len, rest, i - 1);
      } else {
        assert ([len] + rest)[..0] == [];
      }
    }
  }

  lemma {:induction false} GetReadable(u: UserMem, at: nat, n: nat)
    ensures Get(u, at, n).Some? <==> Readable(u, at, n)
    decreases n
  {
    if n > 0 {
      GetReadable(u, at + 1, n - 1);
      assert Readable(u, at, n) <==> At(u, at).Some? && Readable(u, at + 1, n - 1);
    }
  }

  lemma LengthFails(u: UserMem, ctl: nat, at: nat) returns (bad: nat)
    requires Length(u, ctl, at).Err?
    ensures if Length(u, ctl, at).code == EFAULT then !Readable(u, at, 4) else Reads(u, at, bad) && !Sane(bad, ctl, at)
  {
    GetReadable(u, at, 4);
    var n := Get(u, at, 4);
    bad := 0;
    if n.Some? {
      bad := Value(n.value);
      assert Pow256(4) == TWO32;
      ValueBound(n.value);
      LeOfValue(n.value);
      GetMapped(u, at, n.value);
    }
  }

  /** How the first pass ends: at headers `lens`, each behind the last, and then at the end of the buffer, or at a
      length it cannot read, or at one that is too small or reaches past the end. */
  ghost predicate Ends(u: UserMem, ctl: nat, at: nat, r: Result<nat>, lens: seq<nat>, bad: nat) {
    var p := at + Spread(lens);
    && Headers(u, ctl, at, lens)
    && match r
       case Ok(n) => n == Rooms(lens) && p >= ctl
       case Err(code) => p < ctl && if code == EFAULT then !Readable(u, p, 4)
                                    else code == EINVAL && Reads(u, p, bad) && (bad < UHDR || p + bad > ctl)
  }

  lemma EndsCons(u: UserMem, ctl: nat, at: nat, len: nat, rest: Result<nat>, lens: seq<nat>, bad: nat)
    requires Reads(u, at, len) && UHDR <= len && at + len <= ctl && Ends(u, ctl, at + Pad4(len), rest, lens, bad)
    ensures var n := (len - UHDR + KHDR + 7) / 8 * 8;
      Ends(u, ctl, at, if rest.Err? then rest else Ok(n + rest.value), [len] + lens, bad)
  {
    HeadersCons(u, ctl, at, len, lens);
    assert ([len] + lens)[1..] == lens;
  }

  lemma TotalStep(u: UserMem, ctl: nat, at: nat, len: nat)
    requires Length(u, ctl, at) == Ok(len)
    ensures Reads(u, at, len) && UHDR <= len && at + len <= ctl
    ensures var rest := if at + Pad4(len) < ctl then Total(u, ctl, Some(at + Pad4(len))) else Ok(0);
      Total(u, ctl, Some(at)) == if rest.Err? then rest else Ok((len - UHDR + KHDR + 7) / 8 * 8 + rest.value)
  {
    NextIs(ctl, at, len);
    Align8Macro(len - UHDR + KHDR);
    LengthIs(u, ctl, at, len);
  }

  lemma EndsStep(u: UserMem, ctl: nat, at: nat, len: nat, lens: seq<nat>, bad: nat)
    requires Length(u, ctl, at) == Ok(len)
    requires var next := at + Pad4(len);
      if next < ctl then Ends(u, ctl, next, Total(u, ctl, Some(next)), lens, bad) else lens == []
    ensures Ends(u, ctl, at, Total(u, ctl, Some(at)), [len] + lens, bad)
  {
    var next := at + Pad4(len);
    TotalStep(u, ctl, at, len);
    EndsCons(u, ctl, at, len, if next < ctl then Total(u, ctl, Some(next)) else Ok(0), lens, bad);
  }

  lemma {:induction false} TotalFrom(u: UserMem, ctl: nat, at: nat) returns (lens: seq<nat>, bad: nat)
    requires at < ctl
    ensures Ends(u, ctl, at, Total(u, ctl, Some(at)), lens, bad)
    decreases ctl - at
  {
    var n := Length(u, ctl, at);
    lens, bad := [], 0;
    if n.Err? {
      bad := LengthFails(u, ctl, at);
    } else {
      var next := at + Pad4(n.value);
      if next < ctl {
        lens, bad := TotalFrom(u, ctl, next);
      }
      EndsStep(u, ctl, at, n.value, lens, bad);
      lens := [n.value] + lens;
    }
  }

  /** The first pass from the start; a buffer too short for a header gives 0. */
  lemma {:induction false} TotalIs(u: UserMem, ctl: nat) returns (lens: seq<nat>, bad: nat)
    ensures if ctl < UHDR then Total(u, ctl, First(ctl)) == Ok(0)
      else Ends(u, ctl, 0, Total(u, ctl, First(ctl)), lens, bad)
  {
    lens, bad := [], 0;
    if ctl >= UHDR {
      lens, bad := TotalFrom(u, ctl, 0);
    }
  }

  // ----- how the second pass fails

  /** A message is to be read at p and does not get into `room` bytes: its length or the rest of it cannot be read,
      or the length is out of bounds or needs more room. */
  ghost predicate Fails(u: UserMem, ctl: nat, p: nat, room: int, code: int, len: nat) {
    if code == EFAULT then
      || !Readable(u, p, 4)
      || (Reads(u, p, len) && UHDR <= len && p + len <= ctl && (len - UHDR + KHDR + 7) / 8 * 8 <= room
          && !Readable(u, p + 4, len - 4))
    else
      code == EINVAL && Reads(u, p, len) && (len < UHDR || p + len > ctl || (len - UHDR + KHDR + 7) / 8 * 8 > room)
  }

  lemma FetchFails(u: UserMem, at: nat, len: nat)
    requires len >= UHDR
    ensures Fetch(u, at, len).None? <==> !Readable(u, at + 4, len - 4)
  {
    GetReadable(u, at + 4, 4);
    GetReadable(u, at + 8, 4);
    GetReadable(u, at + UHDR, len - UHDR);
    assert Readable(u, at + 4, len - 4)
      <==> Readable(u, at + 4, 4) && Readable(u, at + 8, 4) && Readable(u, at + UHDR, len - UHDR);
  }

  lemma ReadOneFails(u: UserMem, ctl: nat, at: nat, room: nat) returns (len: nat)
    requires ReadOne(u, ctl, at, room).Err?
    ensures Fails(u, ctl, at, room, ReadOne(u, ctl, at, room).code, len)
  {
    var n := Length(u, ctl, at);
    if n.Err? {
      len := LengthFails(u, ctl, at);
    } else {
      len := n.value;
      LengthIs(u, ctl, at, len);
      Align8Macro(len - UHDR + KHDR);
      FetchFails(u, at, len);
    }
  }

  /** The pass has read ms, each behind the last, and fails at the place where the next would be. */
  ghost predicate Stops(u: UserMem, ctl: nat, at: nat, room: int, code: int, ms: seq<Msg>, len: nat) {
    forall o :: Shown(o) ==> Lie(u, ctl, at, ms) && Fails(u, ctl, at + Extent(ms), room - Room(ms), code, len)
  }

  ghost predicate Broken(u: UserMem, ctl: nat, at: nat, room: nat, code: int) {
    forall o :: Open(o) ==> Messages(u, ctl, Some(at), room) == Err(code)
  }

  ghost predicate Took(u: UserMem, ctl: nat, at: nat, room: nat, m: Msg) {
    forall o :: Open(o) ==> ReadOne(u, ctl, at, room) == Ok((m, UHDR + |m.data|))
  }

  ghost predicate Refused(u: UserMem, ctl: nat, at: nat, room: nat) {
    forall o :: Open(o) ==> ReadOne(u, ctl, at, room).Err?
  }

  lemma Try(u: UserMem, ctl: nat, at: nat, room: nat) returns (ok: bool, m: Msg)
    ensures if ok then Took(u, ctl, at, room, m) else Refused(u, ctl, at, room)
  {
    var r := ReadOne(u, ctl, at, room);
    ok, m := r.Ok?, if r.Ok? then r.value.0 else Msg([], [], []);
  }

  lemma StopsNow(u: UserMem, ctl: nat, at: nat, room: nat, code: int) returns (len: nat)
    requires Broken(u, ctl, at, room, code) && Refused(u, ctl, at, room)
    ensures Stops(u, ctl, at, room, code, [], len)
  {
    assert Open(0);
    len := ReadOneFails(u, ctl, at, room);
  }

  lemma TookMsg(u: UserMem, ctl: nat, at: nat, room: nat, m: Msg)
    requires Took(u, ctl, at, room, m)
    ensures UserMsg(u, at, m) && at + UHDR + |m.data| <= ctl && Align8(KHDR + |m.data|) <= room
  {
    assert Open(0);
    ReadOneIs(u, ctl, at, room, m);
  }

  lemma BrokenLater(u: UserMem, ctl: nat, at: nat, room: nat, code: int, m: Msg)
    requires Broken(u, ctl, at, room, code) && Took(u, ctl, at, room, m)
    ensures var next := at + Pad4(UHDR + |m.data|);
      at < next < ctl && Align8(KHDR + |m.data|) <= room && Broken(u, ctl, next, room - Align8(KHDR + |m.data|), code)
  {
    var n := UHDR + |m.data|;
    assert Open(0);
    NextIs(ctl, at, n);
    TookMsg(u, ctl, at, room, m);
    assert Space(n) == Align8(KHDR + |m.data|);
    assert Messages(u, ctl, Next(ctl, at, n), room - Space(n)) == Err(code);
  }

  lemma ConsSizes(m: Msg, rest: seq<Msg>)
    ensures Extent([m] + rest) == Pad4(UHDR + |m.data|) + Extent(rest)
    ensures Room([m] + rest) == Align8(KHDR + |m.data|) + Room(rest)
  {
    assert ([m] + rest)[1..] == rest;
  }

  lemma LieCons(u: UserMem, ctl: nat, at: nat, m: Msg, rest: seq<Msg>)
    requires UserMsg(u, at, m) && at + UHDR + |m.data| <= ctl && Lie(u, ctl, at + Pad4(UHDR + |m.data|), rest)
    ensures Lie(u, ctl, at, [m] + rest)
  {
    assert ([m] + rest)[1..] == rest;
    LieFirst(u, ctl, at, [m] + rest);
  }

  lemma StopsCons(u: UserMem, ctl: nat, at: nat, room: nat, code: int, m: Msg, rest: seq<Msg>, len: nat)
    requires Took(u, ctl, at, room, m)
    requires Stops(u, ctl, at + Pad4(UHDR + |m.data|), room - Align8(KHDR + |m.data|), code, rest, len)
    ensures Stops(u, ctl, at, room, code, [m] + rest, len)
  {
    assert Shown(0);
    TookMsg(u, ctl, at, room, m);
    ConsSizes(m, rest);
    LieCons(u, ctl, at, m, rest);
  }

  lemma {:induction false} BrokenStops(u: UserMem, ctl: nat, at: nat, room: nat, code: int)
    returns (ms: seq<Msg>, len: nat)
    requires Broken(u, ctl, at, room, code)
    ensures Stops(u, ctl, at, room, code, ms, len)
    decreases if at < ctl then ctl - at else 0
  {
    var ok, m := Try(u, ctl, at, room);
    if ok {
      BrokenLater(u, ctl, at, room, code, m);
      ms, len := BrokenStops(u, ctl, at + Pad4(UHDR + |m.data|), room - Align8(KHDR + |m.data|), code);
      StopsCons(u, ctl, at, room, code, m, ms, len);
      ms := [m] + ms;
    } else {
      ms := [];
      len := StopsNow(u, ctl, at, room, code);
    }
  }

  /** Every error of the second pass. */
  lemma MessagesFail(u: UserMem, ctl: nat, room: nat, code: int) returns (ms: seq<Msg>, len: nat)
    requires Messages(u, ctl, First(ctl), room) == Err(code)
    ensures ctl >= UHDR && Lie(u, ctl, 0, ms) && Fails(u, ctl, Extent(ms), room - Room(ms), code, len)
  {
    ms, len := BrokenStops(u, ctl, 0, room, code);
    assert Shown(0);
  }

  // ----- from the user's list to the kernel's

  /** The bytes of a message in the 32-bit layout, with its padding. */
  function UserBytes(m: Msg): seq<byte> {
    Le(4, UHDR + |m.data|) + m.level + m.kind + m.data + seq(Pad4(UHDR + |m.data|) - (UHDR + |m.data|), _ => 0)
  }

  function AllBytes(ms: seq<Msg>): seq<byte> { if ms == [] then [] else UserBytes(ms[0]) + AllBytes(ms[1..]) }

  predicate Sendable(m: Msg) { |m.level| == 4 && |m.kind| == 4 && UHDR + |m.data| < TWO32 }

  /** The list may end with its last byte of data or after its padding. */
  predicate Ending(ms: seq<Msg>, ctl: int) {
    ms != [] && if |ms| == 1 then UHDR + |ms[0].data| <= ctl <= Extent(ms)
                else Ending(ms[1..], ctl - Pad4(UHDR + |ms[0].data|))
  }

  lemma {:induction false} MappedParts(u: UserMem, at: nat, a: seq<byte>, b: seq<byte>)
    requires Mapped(u, at, a + b)
    ensures Mapped(u, at, a) && Mapped(u, at + |a|, b)
    decreases a
  {
    if a == [] {
      assert a + b == b;
    } else {
      assert (a + b)[1..] == a[1..] + b;
      MappedParts(u, at + 1, a[1..], b);
    }
  }

  lemma MappedMsg(u: UserMem, at: nat, m: Msg)
    requires Sendable(m) && Mapped(u, at, UserBytes(m))
    ensures UserMsg(u, at, m)
  {
    var l, pad := Le(4, UHDR + |m.data|), seq(Pad4(UHDR + |m.data|) - (UHDR + |m.data|), _ => 0);
    MappedParts(u, at, l + m.level + m.kind + m.data, pad);
    MappedParts(u, at, l + m.level + m.kind, m.data);
    MappedParts(u, at, l + m.level, m.kind);
    MappedParts(u, at, l, m.level);
  }

  lemma MappedList(u: UserMem, at: nat, ms: seq<Msg>)
    requires ms != [] && Sendable(ms[0]) && Mapped(u, at, AllBytes(ms))
    ensures UserMsg(u, at, ms[0]) && Mapped(u, at + Pad4(UHDR + |ms[0].data|), AllBytes(ms[1..]))
  {
    MappedParts(u, at, UserBytes(ms[0]), AllBytes(ms[1..]));
    MappedMsg(u, at, ms[0]);
  }

  lemma LaidOne(u: UserMem, ctl: nat, at: nat, ms: seq<Msg>)
    requires |ms| == 1 && UserMsg(u, at, ms[0]) && Ending(ms, ctl - at)
    ensures Layout(u, ctl, at, ms)
  {
    assert ms[1..] == [];
    LayoutFirst(u, ctl, at, ms);
  }

  lemma {:induction false} LaidOut(u: UserMem, ctl: nat, at: nat, ms: seq<Msg>)
    requires Mapped(u, at, AllBytes(ms)) && Ending(ms, ctl - at) && forall i :: 0 <= i < |ms| ==> Sendable(ms[i])
    ensures Layout(u, ctl, at, ms)
    decreases ms
  {
    MappedList(u, at, ms);
    if |ms| == 1 {
      LaidOne(u, ctl, at, ms);
    } else {
      var next := at + Pad4(UHDR + |ms[0].data|);
      EndingPositive(ms[1..], ctl - next);
      LaidOut(u, ctl, next, ms[1..]);
      LayoutFirst(u, ctl, at, ms);
    }
  }

  lemma {:induction false} EndingPositive(ms: seq<Msg>, ctl: int)
    requires Ending(ms, ctl)
    ensures ctl >= UHDR
  {
    if |ms| > 1 {
      EndingPositive(ms[1..], ctl - Pad4(UHDR + |ms[0].data|));
    }
  }

  lemma {:induction false} MessagesTotal(u: UserMem, ctl: nat, at: Option<nat>, room: nat)
    requires Messages(u, ctl, at, room).Ok?
    ensures Total(u, ctl, at) == Ok(Room(Messages(u, ctl, at, room).value))
    decreases Left(ctl, at), if at.Some? then 1 else 0
  {
    if at.Some? {
      var len := Length(u, ctl, at.value).value;
      MessagesTotal(u, ctl, Next(ctl, at.value, len), room - Space(len));
    }
  }

  /** Every success: the second pass finds that list, and it takes the room the first pass counted, which is not nothing
      and which there is. And there is no room exactly if the caller's buffer is too small and no other can be had. */
  lemma {:induction false} Succeeds(first: UserMem, second: UserMem, ctl: nat, stack: nat, alloc: bool, ms: seq<Msg>)
    ensures var total, o := Total(first, ctl, First(ctl)), Outcome(first, second, ctl, stack, alloc);
      && (o == Ok(ms) <==>
          total == Ok(Room(ms)) && 0 < Room(ms) && (Room(ms) <= stack || alloc) && UserList(second, ctl, ms))
      && (o == Err(ENOBUFS) <==> total.Ok? && total.value > stack && !alloc)
  {
    var total := Total(first, ctl, First(ctl));
    if total.Ok? {
      MessagesAre(second, ctl, total.value, ms);
      if Messages(second, ctl, First(ctl), total.value) == Err(ENOBUFS) {
        var _, _ := MessagesFail(second, ctl, total.value, ENOBUFS);
      }
    } else {
      var _, _ := TotalIs(first, ctl);
    }
  }

  /** A list that the user lays out, and leaves alone, is the list the kernel gets. */
  lemma {:induction false} Delivered(u: UserMem, ctl: nat, stack: nat, alloc: bool, ms: seq<Msg>)
    requires Mapped(u, 0, AllBytes(ms)) && Ending(ms, ctl) && forall i :: 0 <= i < |ms| ==> Sendable(ms[i])
    requires Room(ms) <= stack || alloc
    ensures Outcome(u, u, ctl, stack, alloc) == Ok(ms)
  {
    EndingPositive(ms, ctl);
    LaidOut(u, ctl, 0, ms);
    MessagesAre(u, ctl, Room(ms), ms);
    MessagesTotal(u, ctl, First(ctl), Room(ms));
  }
}
