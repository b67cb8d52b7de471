/** Copying a bitmap whose rows are `stride` bytes apart into a tightly packed buffer. */
module RowCopy {

  import opened SizeGuards

  newtype byte = b: int | 0 <= b < 256

  /** A source of `length` bytes holds `rows` rows of `rowBytes` bytes, `stride` apart:
      the last row starts at (rows - 1) * stride and must end inside the source. */
  predicate SourceCovers(length: nat, stride: nat, rowBytes: nat, rows: nat) {
    rows == 0 || (rows - 1) * stride + rowBytes <= length
  }

  lemma MulMonotone(a: nat, b: nat, c: nat)
    requires a <= b
    ensures a * c <= b * c
  {
  }

  lemma CoversFewerRows(length: nat, stride: nat, rowBytes: nat, rows: nat, k: nat)
    requires k <= rows
    requires SourceCovers(length, stride, rowBytes, rows)
    ensures SourceCovers(length, stride, rowBytes, k)
  {
    if k > 0 {
      MulMonotone(k - 1, rows - 1, stride);
    }
  }

  /** The packed image: row y of the result is the `rowBytes` bytes at y * stride. */
  function Compact(src: seq<byte>, stride: nat, rowBytes: nat, rows: nat): (r: seq<byte>)
    requires SourceCovers(|src|, stride, rowBytes, rows)
    ensures |r| == rows * rowBytes
    decreases rows
  {
    if rows == 0 then []
    else
      CoversFewerRows(|src|, stride, rowBytes, rows, rows - 1);
      assert (rows - 1) * rowBytes + rowBytes == rows * rowBytes;
      Compact(src, stride, rowBytes, rows - 1) + src[(rows - 1) * stride .. (rows - 1) * stride + rowBytes]
  }

  /** Byte x of row y lands at y * rowBytes + x in the packed image and comes from
      y * stride + x in the source; both offsets are in range. */
  lemma {:induction false} CompactAt(src: seq<byte>, stride: nat, rowBytes: nat, rows: nat, y: nat, x: nat)
    requires SourceCovers(|src|, stride, rowBytes, rows)
    requires y < rows && x < rowBytes
    ensures y * stride + x < |src|
    ensures y * rowBytes + x < rows * rowBytes
    ensures Compact(src, stride, rowBytes, rows)[y * rowBytes + x] == src[y * stride + x]
  {
    CoversFewerRows(|src|, stride, rowBytes, rows, rows - 1);
    var prev := Compact(src, stride, rowBytes, rows - 1);
    var last := (rows - 1) * stride;
    assert Compact(src, stride, rowBytes, rows) == prev + src[last .. last + rowBytes];
    if y == rows - 1 {
      assert |prev| == y * rowBytes;
    } else {
      CompactAt(src, stride, rowBytes, rows - 1, y, x);
      MulMonotone(y, rows - 1, stride);
    }
  }

  /** When the stride equals the row length there is no padding, and the packed
      image is simply the first rows * rowBytes bytes of the source. */
  lemma {:induction false} CompactWithoutPadding(src: seq<byte>, rowBytes: nat, rows: nat)
    requires SourceCovers(|src|, rowBytes, rowBytes, rows)
    ensures rows * rowBytes <= |src|
    ensures Compact(src, rowBytes, rowBytes, rows) == src[..rows * rowBytes]
  {
    if rows > 0 {
      CoversFewerRows(|src|, rowBytes, rowBytes, rows, rows - 1);
      assert (rows - 1) * rowBytes + rowBytes == rows * rowBytes;
      CompactWithoutPadding(src, rowBytes, rows - 1);
      assert src[..(rows - 1) * rowBytes] + src[(rows - 1) * rowBytes .. rows * rowBytes] == src[..rows * rowBytes];
    }
  }

  /** Appending row y to the packed image of the rows before it. */
  lemma CompactNextRow(src: seq<byte>, stride: nat, rowBytes: nat, y: nat)
    requires SourceCovers(|src|, stride, rowBytes, y + 1)
    ensures SourceCovers(|src|, stride, rowBytes, y)
    ensures y * stride + rowBytes <= |src|
    ensures Compact(src, stride, rowBytes, y + 1)
         == Compact(src, stride, rowBytes, y) + src[y * stride .. y * stride + rowBytes]
  {
    CoversFewerRows(|src|, stride, rowBytes, y + 1, y);
  }

  /** memcpy: the n bytes at src[s..] overwrite dst[d..], and dst is otherwise unchanged. */
  method CopyBytes(src: array<byte>, s: nat, dst: array<byte>, d: nat, n: nat)
    requires src != dst
    requires s + n <= src.Length && d + n <= dst.Length
    modifies dst
    ensures dst[..d] == old(dst[..d])
    ensures dst[d .. d + n] == src[s .. s + n]
    ensures dst[d + n ..] == old(dst[d + n ..])
  {
    forall i | 0 <= i < n {
      dst[d + i] := src[s + i];
    }
  }

  /** Copying row y behind the packed rows before it packs one row more. */
  lemma PackedStep(dst: seq<byte>, src: seq<byte>, stride: nat, rowBytes: nat, y: nat, d: nat)
    requires SourceCovers(|src|, stride, rowBytes, y + 1)
    requires d + rowBytes <= |dst|
    requires y * stride + rowBytes <= |src|
    requires dst[..d] == Compact(src, stride, rowBytes, y)
    requires dst[d .. d + rowBytes] == src[y * stride .. y * stride + rowBytes]
    ensures dst[..d + rowBytes] == Compact(src, stride, rowBytes, y + 1)
  {
    CompactNextRow(src, stride, rowBytes, y);
    assert dst[..d + rowBytes] == dst[..d] + dst[d .. d + rowBytes];
  }

  /** Where row y sits in the source and in the packed destination. */
  lemma RowInRange(length: nat, stride: nat, rowBytes: nat, rows: nat, y: nat)
    requires y < rows
    requires SourceCovers(length, stride, rowBytes, rows)
    ensures y * stride + rowBytes <= length
    ensures (y + 1) * rowBytes == y * rowBytes + rowBytes <= rows * rowBytes
    ensures SourceCovers(length, stride, rowBytes, y + 1)
  {
    CoversFewerRows(length, stride, rowBytes, rows, y + 1);
    MulMonotone(y + 1, rows, rowBytes);
    MulMonotone(y, rows - 1, stride);
  }

  /** One iteration of the row-copy loop: row y is copied behind the packed rows
      before it, which then hold one row more. */
  method CopyRow(src: array<byte>, stride: nat, rowBytes: nat, rows: nat, y: nat, dst: array<byte>)
    requires src != dst && y < rows
    requires SourceCovers(src.Length, stride, rowBytes, rows)
    requires SourceCovers(src.Length, stride, rowBytes, y)
    requires dst.Length == rows * rowBytes && y * rowBytes <= dst.Length
    requires dst[..y * rowBytes] == Compact(src[..], stride, rowBytes, y)
    modifies dst
    ensures SourceCovers(src.Length, stride, rowBytes, y + 1)
    ensures (y + 1) * rowBytes <= dst.Length
    ensures dst[..(y + 1) * rowBytes] == Compact(src[..], stride, rowBytes, y + 1)
  {
    RowInRange(src.Length, stride, rowBytes, rows, y);
    var s, d := y * stride, y * rowBytes;
    CopyBytes(src, s, dst, d, rowBytes);
    PackedStep(dst[..], src[..], stride, rowBytes, y, d);
  }

  /** The row-copy loop: `height` memcpy calls of `width * BytesPerPixel` bytes each,
      reading at y * stride and writing at y * width * BytesPerPixel. Only `dst` is
      written, and every write is inside its width * BytesPerPixel * height bytes. */
  method CopyRows(src: array<byte>, stride: nat, width: nat, height: nat, dst: array<byte>)
    requires src != dst
    requires SourceCovers(src.Length, stride, width * BytesPerPixel, height)
    requires dst.Length == width * BytesPerPixel * height
    modifies dst
    ensures dst[..] == Compact(src[..], stride, width * BytesPerPixel, height)
  {
    var rowBytes := width * BytesPerPixel;
    var y := 0;
    while y < height
      invariant 0 <= y <= height
      invariant SourceCovers(src.Length, stride, rowBytes, y)
      invariant y * rowBytes <= dst.Length
      invariant dst[..y * rowBytes] == Compact(src[..], stride, rowBytes, y)
    {
      CopyRow(src, stride, rowBytes, height, y, dst);
      y := y + 1;
    }
    assert dst[..] == dst[..y * rowBytes];
  }
}
