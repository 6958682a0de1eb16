/**
 Ancillary data: the alignment macros, and the walk over the headers of a control
 buffer (section 4.3.2 of RFC 2292).
 */
module Ancillary {
  import opened Wrappers

  /** A `socklen_t`. */
  type Length = x: int | 0 <= x < 0x1_0000_0000

  /** The size of a `size_t`. */
  datatype Width = Four | Eight

  /** `sizeof (struct cmsghdr)`: a `socklen_t` and two `int`s. */
  const HEADER := 12

  /** The length that a header at each position of the control buffer holds. */
  type Lengths = nat -> Length

  function Size(w: Width): nat
  {
    if w.Four? then 4 else 8
  }

  /** The low bits: a mask of `sizeof (size_t) - 1`. */
  function Low(x: nat, w: Width): (r: nat)
    ensures r < Size(w)
  {
    if w.Four? then x % 4 else x % 8
  }

  /** Unsigned arithmetic of a `size_t`. */
  function Wrap(x: nat, w: Width): nat
  {
    if w.Four? then x % 0x1_0000_0000 else x % 0x1_0000_0000_0000_0000
  }

  /** `CMSG_ALIGN`. */
  function Align(len: nat, w: Width): nat
  {
    var x := Wrap(len + Size(w) - 1, w);
    x - Low(x, w)
  }

  /** `__CMSG_PADDING`. */
  function Padding(len: nat, w: Width): nat
  {
    Low(Size(w) - Low(len, w), w)
  }

  /** `CMSG_LEN` and `CMSG_SPACE`. */
  function Len(data: nat, w: Width): nat
  {
    Wrap(Align(HEADER, w) + data, w)
  }

  function Space(data: nat, w: Width): nat
  {
    Wrap(Align(data, w) + Align(HEADER, w), w)
  }

  lemma WrapSmall(x: nat, w: Width)
    requires x < 0x2_0000_0000
    ensures Wrap(x, w) == if w.Four? && x >= 0x1_0000_0000 then x - 0x1_0000_0000 else x
  {
  }

  /** The low bits of a number written as a multiple and a rest. */
  lemma LowIs(x: nat, q: nat, r: nat, w: Width)
    requires r < Size(w) && x == (if w.Four? then 4 * q else 8 * q) + r
    ensures Low(x, w) == r
  {
  }

  lemma Split(x: nat, w: Width) returns (q: nat)
    ensures x == (if w.Four? then 4 * q else 8 * q) + Low(x, w)
  {
    q := if w.Four? then x / 4 else x / 8;
  }

  lemma LowOfSum(x: nat, y: nat, w: Width)
    ensures Low(y, w) == 0 ==> Low(x + y, w) == Low(x, w)
  {
    hide Low;
    if Low(y, w) == 0 {
      var q := Split(x, w);
      var q' := Split(y, w);
      LowIs(x + y, q + q', Low(x, w), w);
    }
  }

  lemma LowOfSmall(x: nat, w: Width)
    requires x < Size(w)
    ensures Low(x, w) == x
  {
  }

  /** The lengths whose padding overflows. */
  lemma TopPadding(len: Length)
    requires len > 0xFFFF_FFFC
    ensures len + Padding(len, Four) == 0x1_0000_0000
  {
  }

  /** Rounding up, without overflow. */
  lemma RoundUp(len: nat, w: Width)
    ensures var p, x := Padding(len, w), len + Size(w) - 1;
            p < Size(w) && Low(len + p, w) == 0 && x - Low(x, w) == len + p
  {
    hide Low;
    var q := Split(len, w);
    var r, n := Low(len, w), Size(w);
    if r == 0 {
      LowIs(n, 1, 0, w);
      LowIs(len + n - 1, q, n - 1, w);
    } else {
      LowIs(n - r, 0, n - r, w);
      LowIs(len + n - r, q + 1, 0, w);
      LowIs(len + n - 1, q + 1, r - 1, w);
    }
  }

  /** The padding completes a length to its aligned length, unless that overflows. */
  lemma PaddingCompletes(len: Length, w: Width)
    ensures Padding(len, w) < Size(w) && Low(len + Padding(len, w), w) == 0
    ensures Align(len, w) == len + Padding(len, w) <==> w.Eight? || len + Padding(len, w) < 0x1_0000_0000
  {
    hide Wrap, Low, Padding;
    RoundUp(len, w);
    WrapSmall(len + Size(w) - 1, w);
    if w.Four? && len > 0xFFFF_FFFC {
      LowOfSmall(len + 3 - 0x1_0000_0000, w);
      TopPadding(len);
    }
  }

  /** The next multiple of 4, or of 8. */
  function RoundedUp(len: nat, w: Width): nat
  {
    if w.Four? then 4 * ((len + 3) / 4) else 8 * ((len + 7) / 8)
  }

  lemma AlignRoundsUp(len: nat, w: Width)
    requires len + 7 < 0x1_0000_0000
    ensures Align(len, w) == RoundedUp(len, w)
  {
    WrapSmall(len + Size(w) - 1, w);
    hide Wrap;
  }

  /** The values of the macros, as long as nothing overflows: the header takes 12 bytes, or 16 where
      objects are aligned to 8. */
  lemma MacroValues(data: nat, w: Width)
    requires data + 32 <= 0x1_0000_0000
    ensures Len(data, w) == data + if w.Four? then 12 else 16
    ensures Space(data, w) == RoundedUp(data, w) + if w.Four? then 12 else 16
  {
    AlignRoundsUp(data, w);
    AlignRoundsUp(HEADER, w);
    hide Wrap, Align;
    WrapSmall(Align(HEADER, w) + data, w);
    WrapSmall(Align(data, w) + Align(HEADER, w), w);
  }

  /** `CMSG_FIRSTHDR`: the position of the first header. */
  function First(controllen: Length): Option<nat>
  {
    if controllen >= HEADER then Some(0) else None
  }

  /** `__cmsg_nxthdr`: the header after the one at `pos`. It is aligned like that one, lies
      behind all of its object, and has room for a full header. */
  function Next(lengths: Lengths, controllen: Length, pos: nat, w: Width): (r: Option<nat>)
    requires pos <= controllen
    ensures r.Some? ==> pos + HEADER <= pos + lengths(pos) <= r.value && r.value + HEADER <= controllen
    ensures r.Some? ==> Low(r.value, w) == Low(pos, w)
  {
    var len := lengths(pos);
    var needed := HEADER + Padding(len, w);
    if len < HEADER then None
    else if controllen - pos < needed || controllen - pos - needed < len then None
    else
      PaddingCompletes(len, w);
      LowOfSum(pos, Align(len, w), w);
      Some(pos + Align(len, w))
  }

  /** There is a next header exactly if the length covers a header, and behind the object, rounded
      up, there is room for another one. */
  lemma NextExactly(lengths: Lengths, controllen: Length, pos: nat, w: Width, q: nat)
    requires pos <= controllen
    ensures Next(lengths, controllen, pos, w) == Some(q) <==>
            lengths(pos) >= 12 && q == pos + RoundedUp(lengths(pos), w) && q + 12 <= controllen
  {
    var len: nat := lengths(pos);
    RoundUp(len, w);
    PaddingRoundsUp(len, w);
    PaddingCompletes(len, w);
    if len + 7 < 0x1_0000_0000 {
      AlignRoundsUp(len, w);
    }
    hide Padding, Align, RoundedUp, Low, Size;
  }

  lemma PaddingRoundsUp(len: nat, w: Width)
    ensures len + Padding(len, w) == RoundedUp(len, w)
  {
    hide Padding;
    RoundUp(len, w);
  }

  /** All headers that the walk visits from `pos` on, whatever the buffer holds. */
  function Walk(lengths: Lengths, controllen: Length, pos: Option<nat>, w: Width): (r: seq<nat>)
    requires pos.Some? ==> pos.value + HEADER <= controllen
    ensures pos.Some? ==> |r| > 0 && r[0] == pos.value
    decreases if pos.Some? then controllen - pos.value else -1
  {
    if pos == None then [] else [pos.value] + Walk(lengths, controllen, Next(lengths, controllen, pos.value, w), w)
  }

  /** Every header visited has room in the buffer, and lies behind all objects before it. */
  lemma {:induction false} WalkAdvances(lengths: Lengths, controllen: Length, pos: nat, w: Width, j: nat)
    requires pos + HEADER <= controllen && j < |Walk(lengths, controllen, Some(pos), w)|
    ensures var r := Walk(lengths, controllen, Some(pos), w);
            && pos <= r[j] && r[j] + HEADER <= controllen && Low(r[j], w) == Low(pos, w)
            && forall i :: 0 <= i < j ==> r[i] + HEADER <= r[i] + lengths(r[i]) <= r[j]
    decreases controllen - pos
  {
    hide Low, Padding, Align;
    var next := Next(lengths, controllen, pos, w);
    if j > 0 {
      var rest := Walk(lengths, controllen, next, w);
      WalkAdvances(lengths, controllen, next.value, w, j - 1);
      assert forall i :: 0 < i <= j ==> Walk(lengths, controllen, Some(pos), w)[i] == rest[i - 1];
    }
  }

  // ----- Objects laid out with the macros -----

  /** The end of objects with these amounts of data, laid out from `pos` on. */
  function LayoutEnd(pos: nat, data: seq<nat>, w: Width): nat
    decreases |data|
  {
    if data == [] then pos else LayoutEnd(pos + Space(data[0], w), data[1..], w)
  }

  function Starts(pos: nat, data: seq<nat>, w: Width): seq<nat>
    decreases |data|
  {
    if data == [] then [] else [pos] + Starts(pos + Space(data[0], w), data[1..], w)
  }

  /** Every object has its header with its length, and fits the buffer; the padding
      of the last one need not. */
  ghost predicate LaidOut(lengths: Lengths, controllen: Length, pos: nat, data: seq<nat>, w: Width)
    decreases |data|
  {
    data != [] ==>
      && Align(HEADER, w) + data[0] + Size(w) <= 0x1_0000_0000
      && pos + Len(data[0], w) <= controllen && lengths(pos) == Len(data[0], w)
      && LaidOut(lengths, controllen, pos + Space(data[0], w), data[1..], w)
  }

  /** Space for an object is its length and padding. */
  lemma SpaceIsPadded(data: nat, w: Width)
    requires Align(HEADER, w) + data + Size(w) <= 0x1_0000_0000
    ensures Len(data, w) == Align(HEADER, w) + data && HEADER <= Align(HEADER, w) && Low(Align(HEADER, w), w) == 0
    ensures Space(data, w) == Len(data, w) + Padding(Len(data, w), w)
  {
    hide Wrap, Low, Padding, Align;
    var h := Align(HEADER, w);
    HeaderAligned(w);
    WrapSmall(h + data, w);
    PaddingCompletes(data, w);
    SamePadding(data, h, w);
    WrapSmall(Align(data, w) + h, w);
  }

  lemma HeaderAligned(w: Width)
    ensures Align(HEADER, w) == (if w.Four? then 12 else 16) && Low(Align(HEADER, w), w) == 0
  {
    hide Low, Wrap;
    WrapSmall(HEADER + Size(w) - 1, w);
    LowIs(15, 3, 3, Four);
    LowIs(19, 2, 3, Eight);
    LowIs(12, 3, 0, Four);
    LowIs(16, 2, 0, Eight);
  }

  lemma SamePadding(len: nat, h: nat, w: Width)
    requires Low(h, w) == 0
    ensures Padding(h + len, w) == Padding(len, w)
  {
    hide Low;
    LowOfSum(len, h, w);
  }

  /** From an object's header the walk steps over its space if a header fits behind it. */
  lemma NextObject(lengths: Lengths, controllen: Length, pos: nat, data: nat, w: Width)
    requires Align(HEADER, w) + data + Size(w) <= 0x1_0000_0000 && pos + Len(data, w) <= controllen
    requires lengths(pos) == Len(data, w)
    ensures pos + HEADER <= controllen
    ensures var next := pos + Space(data, w);
            Next(lengths, controllen, pos, w) == if next + HEADER <= controllen then Some(next) else None
  {
    hide Wrap, Low, Padding, Align, Len, Space, Size;
    SpaceIsPadded(data, w);
    PaddingCompletes(Len(data, w), w);
  }

  /** The walk visits the objects exactly once each and in order, and then it stops, if and
      only if less than a header's room is left in the buffer. */
  lemma {:induction false} WalkVisitsObjects(lengths: Lengths, controllen: Length, pos: nat, data: seq<nat>, w: Width)
    requires data != [] && LaidOut(lengths, controllen, pos, data, w)
    ensures pos + HEADER <= controllen && Starts(pos, data, w) <= Walk(lengths, controllen, Some(pos), w)
    ensures Walk(lengths, controllen, Some(pos), w) == Starts(pos, data, w) <==>
            controllen < LayoutEnd(pos, data, w) + HEADER
    decreases |data|
  {
    hide Next, Wrap, Low, Padding, Align, Len, Space, Size;
    NextObject(lengths, controllen, pos, data[0], w);
    var next := pos + Space(data[0], w);
    var rest := Walk(lengths, controllen, Next(lengths, controllen, pos, w), w);
    assert Walk(lengths, controllen, Some(pos), w) == [pos] + rest;
    if |data| > 1 {
      WalkVisitsObjects(lengths, controllen, next, data[1..], w);
      assert ([pos] + rest)[1..] == rest && Starts(pos, data, w)[1..] == Starts(next, data[1..], w);
    }
  }

  /** The same of the whole walk, from `CMSG_FIRSTHDR` on and also for an empty buffer. */
  lemma LayoutRoundTrip(lengths: Lengths, controllen: Length, data: seq<nat>, w: Width)
    requires LaidOut(lengths, controllen, 0, data, w)
    ensures Walk(lengths, controllen, First(controllen), w) == Starts(0, data, w) <==>
            controllen < LayoutEnd(0, data, w) + HEADER
  {
    hide Next, Wrap, Low, Padding, Align, Len, Space, Size;
    if data != [] {
      WalkVisitsObjects(lengths, controllen, 0, data, w);
    }
  }
}
