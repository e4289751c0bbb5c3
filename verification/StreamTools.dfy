/** `StreamTools`: reading and writing whole buffers over streams that move as much as they like at a
    time, and the variable-length integers built on them. */
module StreamTools {
  import opened Bytes

  // ------------------------------------------------------------------------------ streams

  /** An `IInputStream` over a byte string; `readSome` delivers any positive number of bytes, up to
      the number asked for, while there are any. */
  class InputStream {
    const data: ByteSeq
    var position: nat

    ghost predicate Valid()
      reads this
    {
      position <= |data|
    }

    ghost function Rest(): ByteSeq
      reads this
      requires Valid()
    {
      data[position..]
    }

    constructor (data: ByteSeq)
      ensures Valid() && this.data == data && position == 0
    {
      this.data, position := data, 0;
    }

    method ReadSome(size: nat) returns (chunk: ByteSeq)
      requires Valid()
      modifies this
      ensures Valid()
      ensures |chunk| <= size && chunk <= old(Rest()) && Rest() == old(Rest())[|chunk|..]
      ensures size > 0 && old(Rest()) != [] ==> chunk != []
    {
      var available := |data| - position;
      var n := if size <= available then size else available;
      if n > 0 {
        var fewer: nat := *;
        if 0 < fewer <= n { n := fewer; }
      }
      chunk := data[position..position + n];
      position := position + n;
    }
  }

  /** `read`: the result depends only on the bytes ahead, not on how the stream delivers them. */
  method Read(input: InputStream, size: nat) returns (ok: bool, bytes: ByteSeq)
    requires input.Valid()
    modifies input
    ensures input.Valid()
    ensures ok == (size <= |old(input.Rest())|)
    ensures ok ==> bytes == old(input.Rest())[..size] && input.Rest() == old(input.Rest())[size..]
    ensures !ok ==> input.Rest() == []
  {
    ghost var all := input.Rest();
    bytes := [];
    ok := true;
    var left: nat := size;
    while left > 0
      invariant input.Valid() && |bytes| + left == size
      invariant bytes <= all && input.Rest() == all[|bytes|..]
    {
      var chunk := input.ReadSome(left);
      if |chunk| == 0 { return false, bytes; }
      assert bytes + chunk == all[..|bytes| + |chunk|];
      bytes := bytes + chunk;
      left := left - |chunk|;
    }
  }

  /** An `IOutputStream`; `writeSome` takes any number of the bytes, none meaning failure. */
  class OutputStream {
    var data: ByteSeq

    method WriteSome(bytes: ByteSeq) returns (n: nat)
      modifies this
      ensures n <= |bytes| && data == old(data) + bytes[..n]
    {
      assert 0 <= |bytes|;
      n :| n <= |bytes|;
      data := data + bytes[..n];
    }
  }

  method Write(output: OutputStream, bytes: ByteSeq) returns (ok: bool)
    modifies output
    ensures ok ==> output.data == old(output.data) + bytes
    ensures !ok ==> exists n :: 0 <= n < |bytes| && output.data == old(output.data) + bytes[..n]
  {
    ghost var before := output.data;
    var done := 0;
    while done < |bytes|
      invariant 0 <= done <= |bytes| && output.data == before + bytes[..done]
    {
      var n := output.WriteSome(bytes[done..]);
      if n == 0 {
        assert output.data == before + bytes[..done];
        return false;
      }
      assert bytes[..done] + bytes[done..][..n] == bytes[..done + n];
      done := done + n;
    }
    assert bytes[..done] == bytes;
    ok := true;
  }

  // ------------------------------------------------------------------------------ varints

  /** Seven bits a byte, least significant first, the high bit set on all bytes but the last. */
  function Varint(v: nat): (s: ByteSeq)
    ensures s != []
  {
    if v < 128 then [v as Byte] else [(v % 128 + 128) as Byte] + Varint(v / 128)
  }

  method WriteVarint(output: OutputStream, value: nat) returns (ok: bool)
    modifies output
    ensures ok ==> output.data == old(output.data) + Varint(value)
    ensures !ok ==> exists n :: 0 <= n < |Varint(value)| && output.data == old(output.data) + Varint(value)[..n]
  {
    ghost var before := output.data;
    var v := value;
    ghost var written: ByteSeq := [];
    while v >= 128
      invariant output.data == before + written && Varint(value) == written + Varint(v)
    {
      ok := WriteByte(output, (v % 128 + 128) as Byte);
      if !ok {
        PartOf(before, written, Varint(v));
        return;
      }
      MorePieces(written, v);
      written := written + [(v % 128 + 128) as Byte];
      v := v / 128;
    }
    ok := WriteByte(output, v as Byte);
    PartOf(before, written, Varint(v));
  }

  lemma MorePieces(written: ByteSeq, v: nat)
    requires v >= 128
    ensures written + Varint(v) == written + [(v % 128 + 128) as Byte] + Varint(v / 128)
  {
  }

  method WriteByte(output: OutputStream, b: Byte) returns (ok: bool)
    modifies output
    ensures output.data == old(output.data) + if ok then [b] else []
  {
    ok := Write(output, [b]);
  }

  lemma PartOf(before: ByteSeq, written: ByteSeq, rest: ByteSeq)
    requires rest != []
    ensures exists n :: 0 <= n < |written + rest| && before + written == before + (written + rest)[..n]
  {
    assert (written + rest)[..|written|] == written;
  }

  /** The value whose varint starts with the pieces `c` and goes on like that of `u`. */
  function Assemble(c: ByteSeq, u: nat): nat {
    if c == [] then u else c[0] as nat % 128 + 128 * Assemble(c[1..], u)
  }

  ghost predicate Continues(c: ByteSeq) {
    forall i :: 0 <= i < |c| ==> c[i] >= 128
  }

  lemma {:induction false} AssembleVarint(c: ByteSeq, u: nat)
    requires Continues(c) && (c != [] ==> u > 0)
    ensures Varint(Assemble(c, u)) == c + Varint(u)
    ensures c != [] ==> Assemble(c, u) > 0
  {
    if c != [] {
      AssembleVarint(c[1..], u);
      var w := Assemble(c[1..], u);
      assert Assemble(c, u) == (c[0] as nat - 128) + 128 * w;
      assert c == [c[0]] + c[1..];
    } else {
      assert c + Varint(u) == Varint(u);
    }
  }

  /** Every varint that starts with the pieces read so far is an assembly of them. */
  lemma {:induction false} StartsWithPieces(c: ByteSeq, s: ByteSeq, v: nat) returns (u: nat)
    requires Continues(c) && c <= s && Varint(v) <= s
    ensures v == Assemble(c, u) && Varint(u) <= s[|c|..] && (c != [] ==> u > 0)
    decreases |c|
  {
    if c == [] {
      u := v;
    } else {
      assert Varint(v)[0] == s[0] == c[0];
      assert Varint(v / 128) <= s[1..] by {
        assert Varint(v)[1..] == Varint(v / 128);
        assert Varint(v)[1..] <= s[1..];
      }
      u := StartsWithPieces(c[1..], s[1..], v / 128);
      assert s[1..][|c| - 1..] == s[|c|..];
    }
  }

  function Pow2(n: nat): (p: nat)
    ensures p > 0
  {
    if n == 0 then 1 else 2 * Pow2(n - 1)
  }

  lemma Pow2Plus7(k: nat)
    ensures Pow2(k + 7) == 128 * Pow2(k)
  {
    assert Pow2(k + 2) == 4 * Pow2(k);
    assert Pow2(k + 4) == 4 * Pow2(k + 2);
    assert Pow2(k + 6) == 4 * Pow2(k + 4);
  }

  lemma {:induction false} Pow2Sum(m: nat, n: nat)
    ensures Pow2(m + n) == Pow2(m) * Pow2(n)
    decreases n
  {
    if n > 0 {
      Pow2Sum(m, n - 1);
      assert Pow2(m) * Pow2(n) == 2 * (Pow2(m) * Pow2(n - 1));
    }
  }

  lemma Pow2Monotone(m: nat, n: nat)
    requires m <= n
    ensures Pow2(m) <= Pow2(n)
  {
    Pow2Sum(m, n - m);
    MulAtLeast(Pow2(m), 1, Pow2(n - m));
  }

  lemma MulAtLeast(p: nat, x: nat, y: nat)
    requires x <= y
    ensures p * x <= p * y
  {
    assert p * y == p * x + p * (y - x);
  }

  /** The pieces weigh in below the rest: this is how `temp` and the shifted piece combine. */
  lemma {:induction false} AssembleWeights(c: ByteSeq, u: nat)
    ensures Assemble(c, u) == Assemble(c, 0) + Pow2(7 * |c|) * u
    ensures Assemble(c, 0) < Pow2(7 * |c|)
  {
    if c != [] {
      AssembleWeights(c[1..], u);
      var k := 7 * |c[1..]|;
      Pow2Plus7(k);
      WeightStep(c[0] as nat % 128, Assemble(c[1..], 0), Assemble(c[1..], u), Pow2(k), u);
    }
  }

  lemma WeightStep(piece: nat, low: nat, whole: nat, weight: nat, u: nat)
    requires piece < 128 && low < weight && whole == low + weight * u
    ensures piece + 128 * whole == piece + 128 * low + 128 * weight * u
    ensures piece + 128 * low < 128 * weight
  {
    assert 128 * (weight * u) == 128 * weight * u;
  }

  lemma {:induction false} AssembleSnoc(c: ByteSeq, p: Byte, u: nat)
    ensures Assemble(c + [p], u) == Assemble(c, p as nat % 128 + 128 * u)
  {
    if c != [] {
      AssembleSnoc(c[1..], p, u);
      assert (c + [p])[1..] == c[1..] + [p];
    } else {
      assert (c + [p])[1..] == [];
    }
  }

  /** A varint is at least as large as its place, times what its next piece and those after add. */
  lemma AssembleAtLeast(c: ByteSeq, u: nat, x: nat)
    requires x <= u
    ensures Assemble(c, u) >= Pow2(7 * |c|) * x
  {
    AssembleWeights(c, u);
    MulAtLeast(Pow2(7 * |c|), x, u);
  }

  /** No value of the width has a varint that goes on like this. */
  ghost predicate NoVarint(s: ByteSeq, width: nat) {
    forall v: nat :: v < Pow2(width) ==> !(Varint(v) <= s)
  }

  /** The first byte of a varint says whether it goes on, and bounds the value from below. */
  lemma FirstPiece(u: nat, s: ByteSeq)
    requires Varint(u) <= s
    ensures s != []
    ensures s[0] < 128 ==> u == s[0] as nat
    ensures s[0] >= 128 ==> u >= 128
  {
    assert Varint(u)[0] == s[0];
  }

  lemma EndOfStream(c: ByteSeq, s: ByteSeq, width: nat)
    requires Continues(c) && c == s
    ensures NoVarint(s, width)
  {
    forall v: nat | v < Pow2(width) && Varint(v) <= s ensures false {
      var u := StartsWithPieces(c, s, v);
    }
  }

  lemma PieceTooLarge(c: ByteSeq, s: ByteSeq, p: Byte, width: nat)
    requires Continues(c) && c + [p] <= s
    requires 7 * |c| <= width <= 7 * |c| + 7 && p as nat >= Pow2(width - 7 * |c|)
    ensures NoVarint(s, width)
  {
    var k := width - 7 * |c|;
    Pow2Plus7(0);
    Pow2Monotone(k, 7);
    Pow2Sum(7 * |c|, k);
    forall v: nat | v < Pow2(width) && Varint(v) <= s ensures false {
      var u := StartsWithPieces(c, s, v);
      FirstPiece(u, s[|c|..]);
      assert s[|c|..][0] == p;
      AssembleAtLeast(c, u, Pow2(k));
    }
  }

  lemma ZeroPiece(c: ByteSeq, s: ByteSeq, width: nat)
    requires Continues(c) && c != [] && c + [0] <= s
    ensures NoVarint(s, width)
  {
    forall v: nat | v < Pow2(width) && Varint(v) <= s ensures false {
      var u := StartsWithPieces(c, s, v);
      assert s[|c|..][0] == 0;
      FirstPiece(u, s[|c|..]);
    }
  }

  lemma LastPiece(c: ByteSeq, p: Byte, width: nat)
    requires Continues(c) && p < 128 && (c != [] ==> p > 0)
    requires 7 * |c| + 7 <= width || (7 * |c| <= width && (p as nat) < Pow2(width - 7 * |c|))
    ensures Assemble(c, p as nat) < Pow2(width)
    ensures Varint(Assemble(c, p as nat)) == c + [p]
  {
    AssembleVarint(c, p as nat);
    AssembleWeights(c, p as nat);
    PieceBelow(7 * |c|, Assemble(c, 0), p as nat, width);
  }

  lemma PieceBelow(shift: nat, temp: nat, piece: nat, width: nat)
    requires temp < Pow2(shift) && piece < 128
    requires shift + 7 <= width || (shift <= width && piece < Pow2(width - shift))
    ensures temp + Pow2(shift) * piece < Pow2(width)
  {
    if shift + 7 <= width {
      Pow2Monotone(shift + 7, width);
      Pow2Plus7(shift);
      BelowNext(temp, Pow2(shift), piece, 128);
    } else {
      Pow2Sum(shift, width - shift);
      BelowNext(temp, Pow2(shift), piece, Pow2(width - shift));
    }
  }

  lemma BelowNext(t: nat, p: nat, x: nat, y: nat)
    requires t < p && x < y
    ensures t + p * x < p * y
  {
    MulAtLeast(p, x + 1, y);
    assert p * (x + 1) == p * x + p;
  }

  /** A piece that passes the overflow check and goes on leaves room for another. */
  lemma RoomForMore(shift: nat, piece: nat, width: nat)
    requires shift < width && piece >= 128
    requires !(shift >= width - 7 && piece >= Pow2(width - shift))
    ensures shift + 7 < width
  {
    if shift >= width - 7 {
      Pow2Plus7(0);
      Pow2Monotone(width - shift, 7);
    }
  }

  predicate IsWidth(width: nat) {
    width == 8 || width == 16 || width == 32 || width == 64
  }

  /** `readVarint` at one of its four widths: it succeeds exactly when the stream goes on with the
      varint of a value of that width, and then consumes exactly that. */
  method ReadVarint(input: InputStream, width: nat) returns (ok: bool, value: nat)
    requires input.Valid() && IsWidth(width)
    modifies input
    ensures input.Valid()
    ensures ok ==> value < Pow2(width) && old(input.Rest()) == Varint(value) + input.Rest()
    ensures !ok ==> NoVarint(old(input.Rest()), width)
  {
    ghost var all := input.Rest();
    ghost var c: ByteSeq := [];
    ok, value := false, 0;
    var shift: nat := 0;
    while true
      invariant input.Valid() && all == c + input.Rest() && Continues(c)
      invariant value == Assemble(c, 0) && shift == 7 * |c| < width
      decreases width - shift
    {
      var got, piece := ReadByte(input);
      if !got {
        EndOfStream(c, all, width);
        return;
      }
      assert all == c + [piece] + input.Rest();
      var next := TakePiece(piece, value, shift, width, c, all);
      if next.Refused? { return; }
      value := next.value;
      if next.Last? { return true, value; }
      c := c + [piece];
      shift := shift + 7;
    }
  }

  datatype Piece = Refused | Last(value: nat) | More(value: nat)

  method ReadByte(input: InputStream) returns (ok: bool, b: Byte)
    requires input.Valid()
    modifies input
    ensures input.Valid() && ok == (old(input.Rest()) != [])
    ensures if ok then old(input.Rest()) == [b] + input.Rest() else input.Rest() == []
  {
    var bytes;
    ok, bytes := Read(input, 1);
    b := if ok then bytes[0] else 0;
  }

  /** The body of the loop: overflow check, accumulation, end and canonical-form checks. */
  method TakePiece(piece: Byte, temp: nat, shift: nat, width: nat, ghost c: ByteSeq,
                   ghost all: ByteSeq) returns (r: Piece)
    requires Continues(c) && c + [piece] <= all
    requires temp == Assemble(c, 0) && shift == 7 * |c| < width
    ensures r.Refused? ==> NoVarint(all, width)
    ensures r.Last? ==> r.value < Pow2(width) && Varint(r.value) == c + [piece]
    ensures r.More? ==> r.value == Assemble(c + [piece], 0) && piece >= 128 && shift + 7 < width
  {
    if shift >= width - 7 && piece as nat >= Pow2(width - shift) {
      PieceTooLarge(c, all, piece, width);
      return Refused;
    }
    AssembleWeights(c, piece as nat % 128);
    var value := temp + Pow2(shift) * (piece as nat % 128);
    if piece < 128 {
      if piece == 0 && shift != 0 {
        ZeroPiece(c, all, width);
        return Refused;
      }
      LastPiece(c, piece, width);
      return Last(value);
    }
    RoomForMore(shift, piece as nat, width);
    AssembleSnoc(c, piece, 0);
    return More(value);
  }

  /** No varint is the beginning of another, so what is read is the value written. */
  lemma {:induction false} PrefixFree(v: nat, w: nat, s: ByteSeq)
    requires Varint(v) <= s && Varint(w) <= s
    ensures v == w
    decreases v
  {
    FirstPiece(v, s);
    FirstPiece(w, s);
    if v >= 128 {
      assert Varint(v)[0] == s[0] == Varint(w)[0];
      assert Varint(v)[1..] == Varint(v / 128) && Varint(w)[1..] == Varint(w / 128);
      assert Varint(v)[1..] <= s[1..] && Varint(w)[1..] <= s[1..];
      PrefixFree(v / 128, w / 128, s[1..]);
    }
  }

  /** Dividing in two steps. */
  lemma DivideTwice(v: nat, b: nat)
    requires b > 0
    ensures v / 128 / b == v / (128 * b)
  {
    var q := v / 128;
    var low := 128 * (q % b) + v % 128;
    assert v == 128 * b * (q / b) + low by {
      assert q == b * (q / b) + q % b;
    }
    QuotientIs(v, 128 * b, q / b, low);
  }

  lemma QuotientIs(v: nat, d: nat, q: nat, r: nat)
    requires d > 0 && v == d * q + r && r < d
    ensures v / d == q
  {
    var e, s := v / d, v % d;
    if e < q {
      MulAtLeast(d, e + 1, q);
    } else if e > q {
      MulAtLeast(d, q + 1, e);
    }
  }

  /** Piece number `i` of a varint holds the seven bits from 7 * i on, and says whether more follow;
      more follow exactly as long as bits are left. */
  lemma {:induction false} VarintPieces(v: nat, i: nat)
    requires i < |Varint(v)|
    ensures Varint(v)[i] as nat == v / Pow2(7 * i) % 128 + if i + 1 < |Varint(v)| then 128 else 0
    ensures i + 1 < |Varint(v)| <==> v >= Pow2(7 * (i + 1))
    decreases i
  {
    Pow2Plus7(7 * i);
    assert Pow2(0) == 1;
    if i > 0 {
      VarintPieces(v / 128, i - 1);
      Pow2Plus7(7 * (i - 1));
      DivideTwice(v, Pow2(7 * (i - 1)));
      AtLeastQuotient(v, Pow2(7 * i));
    }
  }

  lemma AtLeastQuotient(v: nat, p: nat)
    ensures v / 128 >= p <==> v >= 128 * p
  {
  }

  /** A value of `width` bits takes at most ceil(width / 7) bytes. */
  lemma {:induction false} VarintLength(v: nat, width: nat)
    requires v < Pow2(width)
    ensures 7 * (|Varint(v)| - 1) <= width
    ensures width > 0 ==> |Varint(v)| <= (width + 6) / 7
    decreases v
  {
    if v >= 128 {
      Pow2Plus7(0);
      if width < 7 { Pow2Monotone(width, 7); }
      Pow2Plus7(width - 7);
      VarintLength(v / 128, width - 7);
    }
  }

  /** Reading after writing returns the value and leaves the rest of the stream. */
  method ReadWhatWasWritten(value: nat, width: nat, rest: ByteSeq) returns (input: InputStream, read: nat)
    requires IsWidth(width) && value < Pow2(width)
    ensures input.Valid() && read == value && input.Rest() == rest
  {
    input := new InputStream(Varint(value) + rest);
    ghost var all := input.Rest();
    assert Varint(value) <= all;
    var ok;
    ok, read := ReadVarint(input, width);
    assert ok;
    assert Varint(read) <= all;
    PrefixFree(value, read, all);
  }
}
