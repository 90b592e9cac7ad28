/**
 CRC-32C, the Castagnoli checksum of section 13.1 of RFC 7143, in its usual reflected bitwise
 form: why reading a file in pieces does not matter, and which corruptions it always detects.
 */
module Checksum {
  import opened Prelude

  // ----- Running a register over bytes

  /** Feed bytes to a register one at a time. */
  function Fold<R>(step: (R, byte) -> R, r: R, data: seq<byte>): R {
    if data == [] then r else step(Fold(step, r, data[..|data| - 1]), data[|data| - 1])
  }

  /** Reopen a finished value, feed it more bytes, and finish it again. */
  function Resume<R>(step: (R, byte) -> R, flip: R -> R, r: R, data: seq<byte>): R {
    flip(Fold(step, flip(r), data))
  }

  lemma {:induction false} FoldConcat<R>(step: (R, byte) -> R, r: R, a: seq<byte>, b: seq<byte>)
    ensures Fold(step, r, a + b) == Fold(step, Fold(step, r, a), b)
    decreases |b|
  {
    if b == [] {
      assert a + b == a;
    } else {
      var n := |b| - 1;
      assert (a + b)[..|a + b| - 1] == a + b[..n];
      FoldConcat(step, r, a, b[..n]);
    }
  }

  lemma {:induction false} ResumeConcat<R(!new)>(step: (R, byte) -> R, flip: R -> R, r: R, a: seq<byte>, b: seq<byte>)
    requires forall x :: flip(flip(x)) == x
    ensures Resume(step, flip, Resume(step, flip, r, a), b) == Resume(step, flip, r, a + b)
  {
    FoldConcat(step, flip(r), a, b);
  }

  /** Two different registers fed the same bytes stay different, if no step can merge them. */
  lemma {:induction false} FoldKeepsApart<R(!new)>(step: (R, byte) -> R, r: R, s: R, data: seq<byte>)
    requires forall x, y, b :: step(x, b) == step(y, b) ==> x == y
    requires r != s
    ensures Fold(step, r, data) != Fold(step, s, data)
  {
    if data != [] {
      FoldKeepsApart(step, r, s, data[..|data| - 1]);
    }
  }

  function Iterate<R>(f: R -> R, n: nat, r: R): R {
    if n == 0 then r else Iterate(f, n - 1, f(r))
  }

  lemma {:induction false} IterateAdds<R>(f: R -> R, m: nat, n: nat, r: R)
    ensures Iterate(f, m, Iterate(f, n, r)) == Iterate(f, m + n, r)
    decreases n
  {
    if n > 0 {
      IterateAdds(f, m, n - 1, f(r));
    }
  }

  lemma {:induction false} IterateInjective<R(!new)>(f: R -> R, n: nat, a: R, b: R)
    requires forall x, y :: f(x) == f(y) ==> x == y
    requires Iterate(f, n, a) == Iterate(f, n, b)
    ensures a == b
  {
    if n > 0 {
      IterateInjective(f, n - 1, f(a), f(b));
    }
  }

  /** A linear register: adding `c` after a step is adding `up(c)` before it, while there is room. */
  ghost predicate Linear<R(!new)>(f: R -> R, add: (R, R) -> R, up: R -> R, room: R -> bool) {
    forall r, c | room(c) :: f(add(r, up(c))) == add(f(r), c)
  }

  ghost predicate RoomFor<R>(up: R -> R, room: R -> bool, c: R, n: nat) {
    forall k: nat | k < n :: room(Iterate(up, k, c))
  }

  lemma {:induction false} IterateAbsorbs<R(!new)>(f: R -> R, add: (R, R) -> R, up: R -> R, room: R -> bool, n: nat, r: R, c: R)
    requires Linear(f, add, up, room) && RoomFor(up, room, c, n)
    ensures Iterate(f, n, add(r, Iterate(up, n, c))) == add(Iterate(f, n, r), c)
  {
    if n > 0 {
      var last := Iterate(up, n - 1, c);
      IterateAdds(up, 1, n - 1, c);
      assert Iterate(up, 1, last) == up(last);
      assert room(last);
      IterateAbsorbs(f, add, up, room, n - 1, f(r), c);
    }
  }

  lemma {:induction false} RoomForConcat<R>(up: R -> R, room: R -> bool, c: R, m: nat, n: nat)
    requires RoomFor(up, room, c, m) && RoomFor(up, room, Iterate(up, m, c), n)
    ensures RoomFor(up, room, c, m + n)
  {
    forall k: nat | k < m + n ensures room(Iterate(up, k, c)) {
      if k >= m { IterateAdds(up, k - m, m, c); }
    }
  }

  /** The bytes as one word added to the register, each moved up past those before it. */
  function Word<R>(add: (R, R) -> R, up: R -> R, embed: byte -> R, r: R, data: seq<byte>): R {
    if data == [] then r
    else
      var n := |data| - 1;
      add(Word(add, up, embed, r, data[..n]), Iterate(up, 8 * n, embed(data[n])))
  }

  lemma {:induction false} WordSnoc<R>(add: (R, R) -> R, up: R -> R, embed: byte -> R, r: R, data: seq<byte>, b: byte, m: nat)
    requires m == 8 * |data|
    ensures Word(add, up, embed, r, data + [b]) == add(Word(add, up, embed, r, data), Iterate(up, m, embed(b)))
  {
  }

  /** The word of four bytes, written out. */
  lemma {:induction false} WordOfFour<R>(add: (R, R) -> R, up: R -> R, embed: byte -> R, r: R, x: seq<byte>, m1: nat, m2: nat, m3: nat)
    requires |x| == 4 && m1 == 8 && m2 == 16 && m3 == 24
    ensures Word(add, up, embed, r, x) ==
            add(add(add(add(r, embed(x[0])), Iterate(up, m1, embed(x[1]))), Iterate(up, m2, embed(x[2]))),
                Iterate(up, m3, embed(x[3])))
  {
    WordSnoc(add, up, embed, r, [], x[0], 0);
    WordSnoc(add, up, embed, r, x[..1], x[1], m1);
    WordSnoc(add, up, embed, r, x[..2], x[2], m2);
    WordSnoc(add, up, embed, r, x[..3], x[3], m3);
    assert x[..1] == [] + [x[0]] && x[..2] == x[..1] + [x[1]] && x[..3] == x[..2] + [x[2]] && x == x[..3] + [x[3]];
  }

  /** Feeding a few bytes one at a time is adding them as one word and then stepping. */
  lemma {:induction false} FoldIsWord<R(!new)>(step: (R, byte) -> R, f: R -> R, add: (R, R) -> R, up: R -> R,
                                               room: R -> bool, embed: byte -> R, r: R, data: seq<byte>)
    requires Linear(f, add, up, room)
    requires forall x, b :: step(x, b) == Iterate(f, 8, add(x, embed(b)))
    requires |data| <= 4 && forall b :: RoomFor(up, room, embed(b), 24)
    ensures Fold(step, r, data) == Iterate(f, 8 * |data|, Word(add, up, embed, r, data))
  {
    if data != [] {
      var n := |data| - 1;
      FoldIsWord(step, f, add, up, room, embed, r, data[..n]);
      var w, c := Word(add, up, embed, r, data[..n]), embed(data[n]);
      assert RoomFor(up, room, c, 8 * n) by { assert RoomFor(up, room, embed(data[n]), 24); }
      IterateAbsorbs(f, add, up, room, 8 * n, w, c);
      IterateAdds(f, 8, 8 * n, add(w, Iterate(up, 8 * n, c)));
    }
  }

  // ----- CRC-32C

  const POLYNOMIAL: bv32 := 0x82F6_3B78

  /** One bit: divide by `x`, reducing by the polynomial when a bit falls out. */
  function Shift(r: bv32): bv32 {
    if r & 1 == 1 then (r >> 1) ^ POLYNOMIAL else r >> 1
  }

  function Xor(a: bv32, b: bv32): bv32 {
    a ^ b
  }

  function Embed(b: byte): bv32 {
    b as bv32
  }

  /** One byte: added to the low end of the register, then eight bit steps. */
  function Update(r: bv32, b: byte): bv32 {
    Iterate(Shift, 8, Xor(r, Embed(b)))
  }

  function Complement(r: bv32): bv32 {
    !r
  }

  /** `crc32c_append`: continue a finished checksum with more data. */
  function Append(crc: bv32, data: seq<byte>): bv32 {
    Resume(Update, Complement, crc, data)
  }

  function Crc32c(data: seq<byte>): bv32 {
    Append(0, data)
  }

  lemma {:induction false} ComplementTwice()
    ensures forall x :: Complement(Complement(x)) == x
  {
  }

  /** Appending in two pieces is appending once. */
  lemma {:induction false} AppendConcat(crc: bv32, a: seq<byte>, b: seq<byte>)
    ensures Append(Append(crc, a), b) == Append(crc, a + b)
  {
    ComplementTwice();
    ResumeConcat(Update, Complement, crc, a, b);
  }

  lemma {:induction false} AppendNothing(crc: bv32)
    ensures Append(crc, []) == crc
  {
  }

  /** The checksums the repository's tests expect of "xyz", "abcd" and "ef". */
  lemma {:induction false} KnownChecksums()
    ensures Crc32c([0x78, 0x79, 0x7A]) == 0x2523_6885
    ensures Crc32c([0x61, 0x62, 0x63, 0x64]) == 0x92C8_0A31
    ensures Crc32c([0x65, 0x66]) == 0x6BB2_DFF5
  {
    FoldThree(0xFFFF_FFFF, 0x78, 0x79, 0x7A);
    FoldThree(0xFFFF_FFFF, 0x61, 0x62, 0x63);
    FoldSnoc(0xFFFF_FFFF, [0x61, 0x62, 0x63], 0x64);
    FoldThree(0xFFFF_FFFF, 0x65, 0x66, 0x00);
    assert [0x61, 0x62, 0x63] + [0x64] == [0x61, 0x62, 0x63, 0x64 as byte];
    assert Complement(0) == 0xFFFF_FFFF;
  }

  lemma {:induction false} FoldSnoc(r: bv32, data: seq<byte>, b: byte)
    ensures Fold(Update, r, data + [b]) == Update(Fold(Update, r, data), b)
  {
  }

  lemma {:induction false} FoldThree(r: bv32, a: byte, b: byte, c: byte)
    ensures Fold(Update, r, [a, b]) == Update(Update(r, a), b)
    ensures Fold(Update, r, [a, b, c]) == Update(Update(Update(r, a), b), c)
  {
    FoldSnoc(r, [], a);
    FoldSnoc(r, [a], b);
    FoldSnoc(r, [a, b], c);
    assert [] + [a] == [a] && [a] + [b] == [a, b] && [a, b] + [c] == [a, b, c];
  }

  // ----- Incremental checksums

  function Concat(pieces: seq<seq<byte>>): seq<byte> {
    if pieces == [] then [] else Concat(pieces[..|pieces| - 1]) + pieces[|pieces| - 1]
  }

  /** The checksum of a file read as these pieces. */
  function AppendAll(crc: bv32, pieces: seq<seq<byte>>): bv32 {
    if pieces == [] then crc else Append(AppendAll(crc, pieces[..|pieces| - 1]), pieces[|pieces| - 1])
  }

  /** However a file is cut up, appending the pieces gives the checksum of the whole. */
  lemma {:induction false} PiecesDoNotMatter(pieces: seq<seq<byte>>)
    ensures AppendAll(0, pieces) == Crc32c(Concat(pieces))
  {
    if pieces == [] {
      AppendNothing(0);
    } else {
      var n := |pieces| - 1;
      PiecesDoNotMatter(pieces[..n]);
      AppendConcat(0, Concat(pieces[..n]), pieces[n]);
    }
  }

  // ----- Detection

  function Up(c: bv32): bv32 {
    c << 1
  }

  predicate Room(c: bv32) {
    c < 0x8000_0000
  }

  lemma {:induction false} ShiftKeepsApart(a: bv32, b: bv32)
    requires Shift(a) == Shift(b)
    ensures a == b
  {
  }

  lemma {:induction false} ShiftAbsorbsBits(r: bv32, c: bv32)
    requires c < 0x8000_0000
    ensures Shift(r) ^ c == Shift(r ^ (c << 1))
  {
  }

  lemma {:induction false} ShiftAbsorbs(r: bv32, c: bv32)
    requires Room(c)
    ensures Shift(Xor(r, Up(c))) == Xor(Shift(r), c)
  {
    ShiftAbsorbsBits(r, c);
  }

  lemma {:induction false} ShiftIsInjective()
    ensures forall x, y :: Shift(x) == Shift(y) ==> x == y
  {
    forall x, y | Shift(x) == Shift(y) ensures x == y { ShiftKeepsApart(x, y); }
  }

  lemma {:induction false} ShiftIsLinear()
    ensures Linear(Shift, Xor, Up, Room)
  {
    forall r, c | Room(c) ensures Shift(Xor(r, Up(c))) == Xor(Shift(r), c) { ShiftAbsorbs(r, c); }
  }

  lemma {:induction false} RoomForEight(c: bv32)
    requires c < 0x0100_0000
    ensures RoomFor(Up, Room, c, 8)
  {
    assert Room(Iterate(Up, 0, c));
    assert Room(Iterate(Up, 1, c));
    assert Room(Iterate(Up, 2, c));
    assert Room(Iterate(Up, 3, c));
    assert Room(Iterate(Up, 4, c));
    assert Room(Iterate(Up, 5, c));
    assert Room(Iterate(Up, 6, c));
    assert Room(Iterate(Up, 7, c));
  }

  lemma {:induction false} UpEight(c: bv32)
    ensures Iterate(Up, 8, c) == c << 8
  {
  }

  lemma {:induction false} UpBytes(c: bv32)
    ensures Iterate(Up, 16, c) == (c << 8) << 8
    ensures Iterate(Up, 24, c) == ((c << 8) << 8) << 8
  {
    UpEight(c);
    UpEight(c << 8);
    UpEight((c << 8) << 8);
    IterateAdds(Up, 8, 8, c);
    IterateAdds(Up, 8, 16, c);
  }

  lemma {:induction false} ByteBounds(b: byte)
    ensures Embed(b) < 0x0100_0000 && Embed(b) << 8 < 0x0100_0000 && (Embed(b) << 8) << 8 < 0x0100_0000
  {
  }

  lemma {:induction false} ByteHasRoom(b: byte)
    ensures RoomFor(Up, Room, Embed(b), 24)
  {
    var c := Embed(b);
    ByteBounds(b);
    RoomForEight(c);
    RoomForEight(c << 8);
    RoomForEight((c << 8) << 8);
    UpEight(c);
    UpEight(c << 8);
    RoomForConcat(Up, Room, c << 8, 8, 8);
    RoomForConcat(Up, Room, c, 8, 16);
  }

  lemma {:induction false} BytesHaveRoom()
    ensures forall b :: RoomFor(Up, Room, Embed(b), 24)
  {
    forall b ensures RoomFor(Up, Room, Embed(b), 24) { ByteHasRoom(b); }
  }

  function WordValue(r: bv32, x0: byte, x1: byte, x2: byte, x3: byte): bv32 {
    (((r ^ (x0 as bv32)) ^ ((x1 as bv32) << 8)) ^ (((x2 as bv32) << 8) << 8)) ^ ((((x3 as bv32) << 8) << 8) << 8)
  }

  /** A four-byte word determines its bytes. */
  lemma {:induction false} BytesOfWord(r: bv32, a0: byte, a1: byte, a2: byte, a3: byte, b0: byte, b1: byte, b2: byte, b3: byte)
    requires WordValue(r, a0, a1, a2, a3) == WordValue(r, b0, b1, b2, b3)
    ensures a0 == b0 && a1 == b1 && a2 == b2 && a3 == b3
  {
  }

  lemma {:induction false} UpByBytes(c: bv32, m1: nat, m2: nat, m3: nat)
    requires m1 == 8 && m2 == 16 && m3 == 24
    ensures Iterate(Up, m1, c) == c << 8
    ensures Iterate(Up, m2, c) == (c << 8) << 8
    ensures Iterate(Up, m3, c) == ((c << 8) << 8) << 8
  {
    UpEight(c);
    UpBytes(c);
  }

  lemma {:induction false} WordValueOf(r: bv32, x0: byte, x1: byte, x2: byte, x3: byte, i1: bv32, i2: bv32, i3: bv32)
    requires i1 == Embed(x1) << 8 && i2 == (Embed(x2) << 8) << 8 && i3 == ((Embed(x3) << 8) << 8) << 8
    ensures Xor(Xor(Xor(Xor(r, Embed(x0)), i1), i2), i3) == WordValue(r, x0, x1, x2, x3)
  {
  }

  lemma {:induction false} WordBits(r: bv32, x: seq<byte>, m1: nat, m2: nat, m3: nat)
    requires |x| == 4 && m1 == 8 && m2 == 16 && m3 == 24
    ensures Word(Xor, Up, Embed, r, x) == WordValue(r, x[0], x[1], x[2], x[3])
  {
    UpByBytes(Embed(x[1]), m1, m2, m3);
    UpByBytes(Embed(x[2]), m1, m2, m3);
    UpByBytes(Embed(x[3]), m1, m2, m3);
    WordOfFour(Xor, Up, Embed, r, x, m1, m2, m3);
    WordValueOf(r, x[0], x[1], x[2], x[3],
                Iterate(Up, m1, Embed(x[1])), Iterate(Up, m2, Embed(x[2])), Iterate(Up, m3, Embed(x[3])));
  }

  lemma {:induction false} FourEqual<T>(x: seq<T>, y: seq<T>)
    requires |x| == |y| == 4 && x[0] == y[0] && x[1] == y[1] && x[2] == y[2] && x[3] == y[3]
    ensures x == y
  {
  }

  lemma {:induction false} FourBytesSeparate(r: bv32, x: seq<byte>, y: seq<byte>)
    requires |x| == |y| == 4 && Fold(Update, r, x) == Fold(Update, r, y)
    ensures x == y
  {
    ShiftIsLinear();
    BytesHaveRoom();
    FoldIsWord(Update, Shift, Xor, Up, Room, Embed, r, x);
    FoldIsWord(Update, Shift, Xor, Up, Room, Embed, r, y);
    ShiftIsInjective();
    IterateInjective(Shift, 8 * |x|, Word(Xor, Up, Embed, r, x), Word(Xor, Up, Embed, r, y));
    WordBits(r, x, 8, 16, 24);
    WordBits(r, y, 8, 16, 24);
    BytesOfWord(r, x[0], x[1], x[2], x[3], y[0], y[1], y[2], y[3]);
    FourEqual(x, y);
  }

  lemma {:induction false} BytesSeparate(r: bv32, x: seq<byte>, y: seq<byte>, pad: seq<byte>)
    requires |x| == |y| && |x| + |pad| == 4 && Fold(Update, r, x) == Fold(Update, r, y)
    ensures x == y
  {
    FoldConcat(Update, r, x, pad);
    FoldConcat(Update, r, y, pad);
    FourBytesSeparate(r, x + pad, y + pad);
    assert x == (x + pad)[..|x|] && y == (y + pad)[..|y|];
  }

  lemma {:induction false} XorCancels(a: bv32, b: bv32, c: bv32)
    requires Xor(a, c) == Xor(b, c)
    ensures a == b
  {
  }

  lemma {:induction false} UpdateIsInjective()
    ensures forall x, y, b :: Update(x, b) == Update(y, b) ==> x == y
  {
    ShiftIsInjective();
    forall x, y, b | Update(x, b) == Update(y, b) ensures x == y {
      IterateInjective(Shift, 8, Xor(x, Embed(b)), Xor(y, Embed(b)));
      XorCancels(x, y, Embed(b));
    }
  }

  lemma {:induction false} ComplementCancels(a: bv32, b: bv32)
    requires Complement(a) == Complement(b)
    ensures a == b
  {
  }

  lemma {:induction false} RegistersApart(start: bv32, p: seq<byte>, x: seq<byte>, y: seq<byte>, s: seq<byte>)
    requires |x| == |y| <= 4 && x != y
    ensures Fold(Update, start, p + x + s) != Fold(Update, start, p + y + s)
  {
    var r := Fold(Update, start, p);
    FoldConcat(Update, start, p, x);
    FoldConcat(Update, start, p, y);
    if Fold(Update, r, x) == Fold(Update, r, y) {
      BytesSeparate(r, x, y, seq(4 - |x|, _ => 0));
    }
    FoldConcat(Update, start, p + x, s);
    FoldConcat(Update, start, p + y, s);
    UpdateIsInjective();
    FoldKeepsApart(Update, Fold(Update, r, x), Fold(Update, r, y), s);
  }

  /** Any change confined to four consecutive bytes of a file or chunk changes its checksum. */
  lemma {:induction false} BurstIsDetected(p: seq<byte>, x: seq<byte>, y: seq<byte>, s: seq<byte>)
    requires |x| == |y| <= 4 && x != y
    ensures Crc32c(p + x + s) != Crc32c(p + y + s)
  {
    RegistersApart(Complement(0), p, x, y, s);
    if Crc32c(p + x + s) == Crc32c(p + y + s) {
      ComplementCancels(Fold(Update, Complement(0), p + x + s), Fold(Update, Complement(0), p + y + s));
    }
  }

  // ----- Reading a file

  /** The checksum loop: whatever each read returns, the result is the checksum of the file. */
  method FileChecksum(content: seq<byte>, wanted: nat -> nat) returns (checksum: bv32)
    ensures checksum == Crc32c(content)
  {
    checksum := 0;
    var offset := 0;
    AppendNothing(0);
    assert content[..0] == [];
    while offset < |content|
      invariant 0 <= offset <= |content|
      invariant checksum == Crc32c(content[..offset])
    {
      var read := Max(1, Min(wanted(offset), Min(READ_BUFFER, |content| - offset)));
      var buffer := content[offset..offset + read];
      AppendConcat(0, content[..offset], buffer);
      assert content[..offset] + buffer == content[..offset + read];
      checksum := Append(checksum, buffer);
      offset := offset + read;
    }
    assert content[..offset] == content;
  }

  const READ_BUFFER := 65536
}
