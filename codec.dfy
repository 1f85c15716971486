/** The public functions of tinypgm: `tpgm_load_info`, `tpgm_load_data` and
    `tpgm_save`. A path of `None`, and a `null` record or buffer, stand for
    the C null pointers the functions check for. */
module TinyPgm {
  import opened LibC
  import opened Types
  import opened Tokenizer
  import opened Header

  type int32 = x: int | -0x8000_0000 <= x < 0x8000_0000

  // ---------------------------------------------------------------------------
  // Loading

  /** `tpgm_load_info(file_name, info)`: reads the header of a file into the
      caller's record. */
  method LoadInfo(fs: FileSystem, fileName: Option<Path>, info: InfoRef?) returns (status: Status)
    modifies info
    ensures fileName.None? || info == null ==> status == Fail
    ensures info != null && (fileName.None? || fileName.value !in fs.files) ==>
      status == Fail && info.info == old(info.info)
    ensures fileName.Some? && info != null && fileName.value in fs.files ==>
      var r := ReadHeader(fs.files[fileName.value], 0, old(info.info));
      status == r.status && info.info == r.info
  {
    // A missing path or record is refused before anything is opened.
    if fileName.None? || info == null {
      return Fail;
    }

    // A path the file system does not hold fails here.
    var fp := fs.OpenRead(fileName.value);
    if fp == null {
      return Fail;
    }

    // The header fills the record and leaves the stream at the payload.
    status := LoadInfoFromFile(fp, info);
  }

  /** `tpgm_load_data(file_name, info, data, data_size)`: reads the header
      (into a scratch record when `info` is null) and then exactly
      `dataSize` payload bytes into `data`, provided they fit within the
      declared `capacity`. A short payload fails after copying what there
      is; bytes of `data` past what was copied are left alone. */
  method LoadData(fs: FileSystem, fileName: Option<Path>, info: InfoRef?, data: array?<byte>, capacity: nat)
    returns (status: Status)
    requires data != null ==> capacity <= data.Length
    modifies info, data
    ensures fileName.None? || data == null || fileName.value !in fs.files ==>
      && status == Fail
      && (info != null ==> info.info == old(info.info))
      && (data != null ==> data[..] == old(data[..]))
    ensures fileName.Some? && data != null && fileName.value in fs.files ==>
      var file := fs.files[fileName.value];
      var info0 := if info != null then old(info.info) else Blank;
      && (info != null ==> info.info == ReadHeader(file, 0, info0).info)
      && PayloadLoaded(file, 0, info0, capacity, status, old(data[..]), data[..])
  {
    // A missing path or buffer is refused before anything is opened.
    if fileName.None? || data == null {
      return Fail;
    }

    // Without a caller's record the header goes into a scratch one.
    var record := info;
    if record == null {
      record := new InfoRef();
    }

    // A path the file system does not hold fails here.
    var fp := fs.OpenRead(fileName.value);
    if fp == null {
      return Fail;
    }

    status := LoadDataFromFile(fp, record, data, capacity);
  }

  /** The part of `tpgm_load_data` that works on the open file: the header,
      then the payload. */
  method LoadDataFromFile(fp: Stream, record: InfoRef, data: array<byte>, capacity: nat) returns (status: Status)
    requires fp.Valid() && capacity <= data.Length
    modifies fp, record, data
    ensures record.info == ReadHeader(fp.bytes, old(fp.pos), old(record.info)).info
    ensures PayloadLoaded(fp.bytes, old(fp.pos), old(record.info), capacity, status, old(data[..]), data[..])
  {
    // The header fills the record and leaves the stream at the payload.
    status := LoadInfoFromFile(fp, record);
    if status == Ok {
      status := LoadPayload(fp, data, record.info.dataSize, capacity);
    }
  }

  /** The second half of `tpgm_load_data`, once the header has been read:
      the capacity check, then `fread` of `size` bytes and the check that
      all of them were there. */
  method LoadPayload(fp: Stream, data: array<byte>, size: nat, capacity: nat) returns (status: Status)
    requires fp.Valid() && capacity <= data.Length
    modifies fp, data
    ensures if size > capacity then status == Fail && data[..] == old(data[..])
      else
        var n := Copied(fp.bytes, old(fp.pos), size);
        && (status == Ok <==> n == size)
        && data[..n] == fp.bytes[old(fp.pos)..old(fp.pos) + n]
        && data[n..] == old(data[n..])
  {
    // The declared capacity is checked before a single byte is read.
    if size > capacity {
      return Fail;
    }

    // Anything short of `size` bytes is a failure.
    var bytesRead := fp.Read(data, size);
    if bytesRead != size {
      return Fail;
    }
    return Ok;
  }

  /** What `tpgm_load_data` does to the data buffer, from `before` to
      `after`, and the status it returns, given the file read from `start`
      into a record that held `info0`. A header that fails or describes
      more than `capacity` bytes fails with the buffer untouched; otherwise
      the payload after the header is copied as far as the file holds it,
      and only a complete payload succeeds. */
  ghost predicate PayloadLoaded(file: seq<byte>, start: nat, info0: Info, capacity: nat, status: Status,
                                before: seq<byte>, after: seq<byte>)
    requires start <= |file|
  {
    var r := ReadHeader(file, start, info0);
    if r.status == Fail || r.info.dataSize > capacity then
      status == Fail && after == before
    else
      var n := Copied(file, r.next, r.info.dataSize);
      && n <= |after| == |before|
      && (status == Ok <==> n == r.info.dataSize)
      && after[..n] == file[r.next..r.next + n]
      && after[n..] == before[n..]
  }

  /** How many of `size` bytes `fread` finds in `file` from position `start`. */
  function Copied(file: seq<byte>, start: nat, size: nat): (n: nat)
    requires start <= |file|
    ensures n <= size && start + n <= |file|
    ensures n == size || start + n == |file|
  {
    if size <= |file| - start then size else |file| - start
  }

  // ---------------------------------------------------------------------------
  // Saving

  /** The stride `tpgm_save` works with: a stride of zero or less means
      tightly packed rows. */
  function EffectiveStride(width: int32, stride: int32): int32 {
    if stride <= 0 then width else stride
  }

  /** The geometry `tpgm_save` accepts. */
  predicate ValidGeometry(width: int, height: int, stride: int) {
    width >= 1 && height >= 1 && stride >= width
  }

  /** Whether `h` rows of `w` bytes, the first at `offset` and each next
      one `stride` bytes further on, all lie within `len` bytes. */
  predicate RowsWithin(len: nat, offset: nat, w: nat, h: nat, stride: nat)
    decreases h
  {
    h == 0 || (offset + w <= len && RowsWithin(len, offset + stride, w, h - 1, stride))
  }

  /** The bytes `tpgm_save` writes from `buf`: `h` rows of `w` bytes, the
      first at `offset`, each next one `stride` bytes further on. */
  function Rows(buf: seq<byte>, offset: nat, w: nat, h: nat, stride: nat): seq<byte>
    requires RowsWithin(|buf|, offset, w, h, stride)
    decreases h
  {
    if h == 0 then [] else buf[offset..offset + w] + Rows(buf, offset + stride, w, h - 1, stride)
  }

  /** The first two lines of every saved file: "P5\n# Created by tinypgm\n"
      in ASCII. */
  const Banner: seq<byte> :=
    [80, 53, 10, 35, 32, 67, 114, 101, 97, 116, 101, 100, 32, 98, 121, 32, 116, 105, 110, 121, 112, 103, 109, 10]

  /** The text header `tpgm_save` writes:
      `fprintf(fp, "P5\n# Created by tinypgm\n%d %d\n%d\n", width, height, 255)`. */
  function HeaderText(width: nat, height: nat): seq<byte> {
    Banner + FormatInt(width) + [Space] + FormatInt(height)
      + [Newline] + FormatInt(255) + [Newline]
  }

  /** A whole file as `tpgm_save` writes it. */
  function PgmFile(width: nat, height: nat, pixels: seq<byte>): seq<byte> {
    HeaderText(width, height) + pixels
  }

  /** `tpgm_save(file_name, data, width, height, stride)`: writes a binary PGM
      file with maximum value 255 and the first `width` bytes of each of
      `height` rows of `data`, rows lying `stride` bytes apart. */
  method Save(fs: FileSystem, fileName: Option<Path>, data: array?<byte>, width: int32, height: int32, stride: int32)
    returns (status: Status)
    requires data != null && ValidGeometry(width, height, EffectiveStride(width, stride)) ==>
      RowsWithin(data.Length, 0, width, height, EffectiveStride(width, stride))
    modifies fs
    ensures var st := EffectiveStride(width, stride);
      if fileName.None? || data == null || !ValidGeometry(width, height, st) || fileName.value !in fs.writable then
        status == Fail && fs.files == old(fs.files)
      else
        && status == Ok
        && fs.files == old(fs.files)[fileName.value := PgmFile(width, height, Rows(data[..], 0, width, height, st))]
  {
    // A stride of zero or less stands for rows packed back to back.
    var st := stride;
    if st <= 0 {
      st := width;
    }

    // A missing path or buffer is refused.
    if fileName.None? || data == null {
      return Fail;
    }

    // Empty images, and rows wider than the stride, are refused.
    if width < 1 || height < 1 || st < width {
      return Fail;
    }

    // A path that cannot be created for writing fails.
    if fileName.value !in fs.writable {
      return Fail;
    }

    // The file starts with the banner and the three numbers.
    var out := HeaderText(width, height);

    // The rows follow, `width` bytes each, without padding.
    var rows := WriteRows(data, width, height, st);
    out := out + rows;

    // Header and rows become the file's contents.
    fs.files := fs.files[fileName.value := out];
    return Ok;
  }

  /** The loop of `tpgm_save` that writes `height` rows of `width` bytes,
      moving the data pointer on by `stride` bytes after each row. */
  method WriteRows(data: array<byte>, width: nat, height: nat, stride: nat) returns (out: seq<byte>)
    requires RowsWithin(data.Length, 0, width, height, stride)
    ensures out == Rows(data[..], 0, width, height, stride)
  {
    ghost var pixels := data[..];
    out := [];
    var offset: nat := 0;
    var k := 0;
    while k < height
      invariant k <= height
      invariant RowsWithin(|pixels|, offset, width, height - k, stride)
      invariant out + Rows(pixels, offset, width, height - k, stride) == Rows(pixels, 0, width, height, stride)
    {
      RowsStep(pixels, offset, width, height - k, stride, out);
      out := out + data[offset..offset + width];
      offset := offset + stride;
      k := k + 1;
    }
    assert out + [] == out;
  }

  /** One step of the row loop: appending the next row to what was written
      leaves the rest to write. */
  lemma RowsStep(buf: seq<byte>, offset: nat, w: nat, h: nat, stride: nat, written: seq<byte>)
    requires h > 0 && RowsWithin(|buf|, offset, w, h, stride)
    ensures RowsWithin(|buf|, offset + stride, w, h - 1, stride)
    ensures written + Rows(buf, offset, w, h, stride)
         == (written + buf[offset..offset + w]) + Rows(buf, offset + stride, w, h - 1, stride)
  {
    var row, rest := buf[offset..offset + w], Rows(buf, offset + stride, w, h - 1, stride);
    assert written + (row + rest) == (written + row) + rest;
  }

  // ---------------------------------------------------------------------------
  // What the saved rows are

  /** Rows fit a buffer exactly when the last one does. */
  lemma {:induction false} RowsWithinSpan(len: nat, offset: nat, w: nat, h: nat, stride: nat)
    ensures RowsWithin(len, offset, w, h, stride) <==> h == 0 || offset + (h - 1) * stride + w <= len
    decreases h
  {
    if h > 1 {
      RowsWithinSpan(len, offset + stride, w, h - 1, stride);
      assert offset + stride + (h - 2) * stride == offset + (h - 1) * stride;
    }
  }

  /** The output holds `width` bytes per row, nothing else. */
  lemma {:induction false} RowsLength(buf: seq<byte>, offset: nat, w: nat, h: nat, stride: nat)
    requires RowsWithin(|buf|, offset, w, h, stride)
    ensures |Rows(buf, offset, w, h, stride)| == w * h
    decreases h
  {
    if h > 0 {
      RowsLength(buf, offset + stride, w, h - 1, stride);
      assert w + w * (h - 1) == w * h;
    }
  }

  /** Byte `j` of row `k` in the output is byte `j` of the `k`-th stride of
      the buffer: padding past `width` is never written. */
  lemma RowsAt(buf: seq<byte>, offset: nat, w: nat, h: nat, stride: nat, k: nat, j: nat)
    requires RowsWithin(|buf|, offset, w, h, stride)
    requires k < h && j < w
    ensures offset + k * stride + j < |buf|
    ensures k * w + j < |Rows(buf, offset, w, h, stride)|
    ensures Rows(buf, offset, w, h, stride)[k * w + j] == buf[offset + k * stride + j]
  {
    RowsDrop(buf, offset, w, h, stride, k);
    var tail := Rows(buf, offset + k * stride, w, h - k, stride);
    assert tail == buf[offset + k * stride..offset + k * stride + w] + Rows(buf, offset + k * stride + stride, w, h - k - 1, stride);
    assert tail[j] == buf[offset + k * stride + j];
  }

  /** Past its first `k` rows the output is the output of the rows that
      start `k` strides further on. */
  lemma {:induction false} RowsDrop(buf: seq<byte>, offset: nat, w: nat, h: nat, stride: nat, k: nat)
    requires RowsWithin(|buf|, offset, w, h, stride)
    requires k <= h
    ensures k * w <= |Rows(buf, offset, w, h, stride)|
    ensures RowsWithin(|buf|, offset + k * stride, w, h - k, stride)
    ensures Rows(buf, offset, w, h, stride)[k * w..] == Rows(buf, offset + k * stride, w, h - k, stride)
    decreases k
  {
    if k > 0 {
      var out := Rows(buf, offset, w, h, stride);
      var rest := Rows(buf, offset + stride, w, h - 1, stride);
      assert out == buf[offset..offset + w] + rest;
      RowsDrop(buf, offset + stride, w, h - 1, stride, k - 1);
      MulSucc(w, k);
      MulSucc(stride, k);
      assert out[k * w..] == rest[(k - 1) * w..];
    }
  }

  lemma MulSucc(a: nat, b: nat)
    requires b >= 1
    ensures a * b == a + a * (b - 1) && b * a == a + (b - 1) * a
  {
  }

  /** With stride equal to width the rows of a tightly packed image are the
      image itself. */
  lemma {:induction false} RowsPacked(pixels: seq<byte>, offset: nat, w: nat, h: nat)
    requires offset + w * h <= |pixels|
    ensures RowsWithin(|pixels|, offset, w, h, w)
    ensures Rows(pixels, offset, w, h, w) == pixels[offset..offset + w * h]
    decreases h
  {
    if h > 0 {
      assert w * h == w + w * (h - 1);
      RowsPacked(pixels, offset + w, w, h - 1);
      assert pixels[offset..offset + w * h]
          == pixels[offset..offset + w] + pixels[offset + w..offset + w + w * (h - 1)];
    }
  }

  /** Saving with a stride wider than the row gives the same file as saving
      the row-extracted pixels tightly packed. */
  lemma StrideIrrelevant(buf: seq<byte>, w: nat, h: nat, stride: nat)
    requires RowsWithin(|buf|, 0, w, h, stride)
    ensures var packed := Rows(buf, 0, w, h, stride);
      RowsWithin(|packed|, 0, w, h, w) && PgmFile(w, h, Rows(packed, 0, w, h, w)) == PgmFile(w, h, packed)
  {
    var packed := Rows(buf, 0, w, h, stride);
    RowsLength(buf, 0, w, h, stride);
    RowsPacked(packed, 0, w, h);
    assert packed[0..w * h] == packed;
  }

  /** The padded example: a 2x2 image at stride 4 keeps only the pixels. */
  lemma PaddingDropped()
    ensures RowsWithin(8, 0, 2, 2, 4)
    ensures Rows([1, 2, 9, 9, 3, 4, 9, 9], 0, 2, 2, 4) == [1, 2, 3, 4]
  {
    var buf: seq<byte> := [1, 2, 9, 9, 3, 4, 9, 9];
    assert Rows(buf, 4, 2, 1, 4) == [3, 4];
  }
}
