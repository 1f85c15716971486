/** What `tpgm_save` writes is what `tpgm_load_info` and `tpgm_load_data`
    read back: the same width and height, maximum value 255, and the saved
    rows packed one after the other. */
module RoundTrip {
  import opened LibC
  import opened Types
  import opened Tokenizer
  import opened Header
  import opened TinyPgm

  /** A token that fits the buffer, written just before a white-space byte,
      is read as it stands whatever surrounds it. */
  lemma TokenThen(pre: seq<byte>, t: seq<byte>, d: byte, post: seq<byte>)
    requires |t| < MaxTokenSize && IsSpace(d)
    requires forall i :: 0 <= i < |t| ==> IsTokenByte(t[i])
    ensures NextToken(pre + t + [d] + post, |pre|) == TokOk(t, |pre| + |t| + 1)
  {
    var s := pre + t + [d] + post;
    assert s[|pre|..|pre| + |t|] == t;
    assert s[|pre| + |t|] == d;
    TokenPlain(s, |pre|, t);
  }

  /** The decimal text of a positive `int`, as `%d` writes it, fits the
      token buffer and is all token bytes. */
  lemma NumberFits(n: nat)
    requires n < 0x8000_0000
    ensures |FormatInt(n)| < MaxTokenSize
    ensures forall i :: 0 <= i < |FormatInt(n)| ==> IsTokenByte(FormatInt(n)[i])
  {
    assert Pow10(10) == 10000000000;
    FormatIntLength(n, 10);
  }

  /** `%d` reads back, through the token buffer, what `%d` wrote. */
  lemma NumberReadsBack(n: nat)
    ensures ScanInt(CString(FormatInt(n))) == Some(n)
  {
    CStringNoNul(FormatInt(n));
    ScanFormatInt(n);
  }

  /** Bytes that start with the saved banner: the magic string is read
      first, then the comment line through byte 23 is skipped. */
  lemma BannerTokens(rest: seq<byte>)
    ensures var s := Banner + rest;
      && NextToken(s, 0) == TokOk(Magic, 3)
      && NextToken(s, 3) == NextToken(s, 24)
  {
    var s := Banner + rest;
    assert s == [] + Magic + [Newline] + s[3..];
    TokenThen([], Magic, Newline, s[3..]);
    forall j | 3 < j < 23
      ensures s[j] != Newline
    {
      assert s[j] == Banner[j];
    }
    CommentSkip(s, 3, 0, 24);
  }

  /** Three numbers written as `%d %d\n%d\n` after any prefix are read as
      three tokens, each ending at its white-space byte. */
  lemma NumberTokens(pre: seq<byte>, fw: seq<byte>, fh: seq<byte>, fm: seq<byte>, pixels: seq<byte>)
    requires |fw| < MaxTokenSize && forall i :: 0 <= i < |fw| ==> IsTokenByte(fw[i])
    requires |fh| < MaxTokenSize && forall i :: 0 <= i < |fh| ==> IsTokenByte(fh[i])
    requires |fm| < MaxTokenSize && forall i :: 0 <= i < |fm| ==> IsTokenByte(fm[i])
    ensures var s := pre + fw + [Space] + fh + [Newline] + fm + [Newline] + pixels;
      var a := |pre| + |fw| + 1;
      var b := a + |fh| + 1;
      && NextToken(s, |pre|) == TokOk(fw, a)
      && NextToken(s, a) == TokOk(fh, b)
      && NextToken(s, b) == TokOk(fm, b + |fm| + 1)
  {
    var s := pre + fw + [Space] + fh + [Newline] + fm + [Newline] + pixels;
    var rest2 := fm + [Newline] + pixels;
    var rest1 := fh + [Newline] + rest2;
    assert s == pre + fw + [Space] + rest1;
    TokenThen(pre, fw, Space, rest1);
    assert s == (pre + fw + [Space]) + fh + [Newline] + rest2;
    TokenThen(pre + fw + [Space], fh, Newline, rest2);
    TokenThen(pre + fw + [Space] + fh + [Newline], fm, Newline, pixels);
  }

  lemma Regroup(banner: seq<byte>, fw: seq<byte>, fh: seq<byte>, fm: seq<byte>, pixels: seq<byte>)
    ensures banner + fw + [Space] + fh + [Newline] + fm + [Newline] + pixels
         == banner + (fw + [Space] + fh + [Newline] + fm + [Newline] + pixels)
  {
  }

  /** Four tokens read one after the other, with a comment skipped between
      the first and the second. */
  lemma FourTokens(s: seq<byte>, t0: seq<byte>, c: nat, t1: seq<byte>, a: nat, t2: seq<byte>, b: nat, t3: seq<byte>, e: nat)
    requires 3 <= c <= |s|
    requires NextToken(s, 0) == TokOk(t0, 3) && NextToken(s, 3) == NextToken(s, c)
    requires NextToken(s, c) == TokOk(t1, a)
    requires a <= |s| && NextToken(s, a) == TokOk(t2, b)
    requires b <= |s| && NextToken(s, b) == TokOk(t3, e)
    ensures Tokens(s, 0, 4) == Some(([t0, t1, t2, t3], e))
  {
    assert Tokens(s, e, 0) == Some(([], e));
    assert [t3] + [] == [t3];
    assert Tokens(s, b, 1) == Some(([t3], e));
    assert [t2] + [t3] == [t2, t3];
    assert Tokens(s, a, 2) == Some(([t2, t3], e));
    assert [t1] + [t2, t3] == [t1, t2, t3];
    assert Tokens(s, 3, 3) == Some(([t1, t2, t3], e));
    assert [t0] + [t1, t2, t3] == [t0, t1, t2, t3];
  }

  /** The four tokens of a header laid out as `tpgm_save` lays it out, for
      any three numbers that fit the token buffer. */
  lemma LayoutTokens(file: seq<byte>, fw: seq<byte>, fh: seq<byte>, fm: seq<byte>, pixels: seq<byte>, e: nat)
    requires |fw| < MaxTokenSize && forall i :: 0 <= i < |fw| ==> IsTokenByte(fw[i])
    requires |fh| < MaxTokenSize && forall i :: 0 <= i < |fh| ==> IsTokenByte(fh[i])
    requires |fm| < MaxTokenSize && forall i :: 0 <= i < |fm| ==> IsTokenByte(fm[i])
    requires file == Banner + fw + [Space] + fh + [Newline] + fm + [Newline] + pixels
    requires e == 24 + |fw| + |fh| + |fm| + 3
    ensures Tokens(file, 0, 4) == Some(([Magic, fw, fh, fm], e))
  {
    var rest := fw + [Space] + fh + [Newline] + fm + [Newline] + pixels;
    Regroup(Banner, fw, fh, fm, pixels);
    BannerTokens(rest);
    NumberTokens(Banner, fw, fh, fm, pixels);
    var a := 24 + |fw| + 1;
    var b := a + |fh| + 1;
    FourTokens(file, Magic, 24, fw, a, fh, b, fm, b + |fm| + 1);
  }

  /** The four tokens of a saved header: the magic string, the width, the
      height and 255, ending where the pixels begin. */
  lemma SavedTokens(w: nat, h: nat, pixels: seq<byte>)
    requires 1 <= w < 0x8000_0000 && 1 <= h < 0x8000_0000
    ensures Tokens(PgmFile(w, h, pixels), 0, 4)
         == Some(([Magic, FormatInt(w), FormatInt(h), FormatInt(255)], |HeaderText(w, h)|))
  {
    NumberFits(w);
    NumberFits(h);
    NumberFits(255);
    LayoutTokens(PgmFile(w, h, pixels), FormatInt(w), FormatInt(h), FormatInt(255), pixels, |HeaderText(w, h)|);
  }

  /** Round trip of the header: the file `tpgm_save` writes for a valid
      geometry is accepted, with the saved width and height, maximum value
      255 and `dataSize == width * height`, whatever the record held, and
      the stream is left on the first pixel. */
  lemma SavedHeaderAccepted(w: nat, h: nat, pixels: seq<byte>, info0: Info)
    requires 1 <= w < 0x8000_0000 && 1 <= h < 0x8000_0000
    ensures var r := ReadHeader(PgmFile(w, h, pixels), 0, info0);
      && r.status == Ok
      && r.info.width == w && r.info.height == h && r.info.maxValue == 255
      && r.info.dataSize == w * h
      && r.next == |HeaderText(w, h)|
  {
    SavedTokens(w, h, pixels);
    NumberReadsBack(w);
    NumberReadsBack(h);
    NumberReadsBack(255);
    CStringNoNul(Magic);
    HeaderFromFields(PgmFile(w, h, pixels), 0, info0, Magic, FormatInt(w), FormatInt(h), FormatInt(255),
                     |HeaderText(w, h)|, w, h, 255);
  }

  /** Round trip of the pixels: loading a saved file into a buffer of at
      least `width * height` bytes succeeds and yields the saved pixels,
      leaving the rest of the buffer alone. */
  lemma SavedPayloadLoads(w: nat, h: nat, pixels: seq<byte>, info0: Info, capacity: nat,
                          status: Status, before: seq<byte>, after: seq<byte>)
    requires 1 <= w < 0x8000_0000 && 1 <= h < 0x8000_0000
    requires |pixels| == w * h <= capacity <= |before|
    requires PayloadLoaded(PgmFile(w, h, pixels), 0, info0, capacity, status, before, after)
    ensures status == Ok
    ensures |after| == |before| && after[..w * h] == pixels && after[w * h..] == before[w * h..]
  {
    SavedHeaderAccepted(w, h, pixels, info0);
    var file := PgmFile(w, h, pixels);
    assert file[|HeaderText(w, h)|..] == pixels;
  }

  /** `tpgm_save` followed by `tpgm_load_data` on the same path: both
      succeed, the record receives the saved geometry with maximum value
      255, and the buffer receives the saved rows packed together, padding
      dropped. */
  method SaveThenLoad(fs: FileSystem, path: Path, image: array<byte>, width: int32, height: int32, stride: int32,
                      dest: array<byte>)
    returns (saved: Status, loaded: Status, info: InfoRef)
    requires path in fs.writable
    requires ValidGeometry(width, height, EffectiveStride(width, stride))
    requires RowsWithin(image.Length, 0, width, height, EffectiveStride(width, stride))
    requires width * height <= dest.Length
    modifies fs, dest
    ensures saved == Ok && loaded == Ok
    ensures info.info == Info(width, height, 255, width * height)
    ensures dest[..width * height] == Rows(old(image[..]), 0, width, height, EffectiveStride(width, stride))
    ensures dest[width * height..] == old(dest[width * height..])
  {
    ghost var pixels := Rows(image[..], 0, width, height, EffectiveStride(width, stride));
    RowsLength(image[..], 0, width, height, EffectiveStride(width, stride));
    saved := Save(fs, Some(path), image, width, height, stride);
    assert fs.files[path] == PgmFile(width, height, pixels);
    info := new InfoRef();
    loaded := LoadData(fs, Some(path), info, dest, width * height);
    SavedPayloadLoads(width, height, pixels, Blank, width * height, loaded, old(dest[..]), dest[..]);
    SavedHeaderAccepted(width, height, pixels, Blank);
  }
}
