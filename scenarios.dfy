/** Worked files: a 3 by 2 image whose header carries a comment line, and
    headers that `load_info_from_file` must refuse. Every file here ends in
    arbitrary bytes, so each statement is about the header bytes alone. */
module Scenarios {
  import opened LibC
  import opened Types
  import opened Tokenizer
  import opened Header
  import opened TinyPgm
  import opened RoundTrip

  /** "P5\n# comment\n3 2\n255\n": 21 header bytes for a 3 by 2 image. */
  const CommentedHeader: seq<byte> :=
    [80, 53, 10, 35, 32, 99, 111, 109, 109, 101, 110, 116, 10, 51, 32, 50, 10, 50, 53, 53, 10]

  /** The magic string is read first, then the comment line through
      byte 12 is skipped. */
  lemma CommentedPrefix(s: seq<byte>, pixels: seq<byte>)
    requires s == CommentedHeader + pixels
    ensures NextToken(s, 0) == TokOk(Magic, 3) && NextToken(s, 3) == NextToken(s, 13)
  {
    assert s[0..2] == Magic;
    TokenPlain(s, 0, Magic);
    forall j | 3 < j < 12
      ensures s[j] != Newline
    {
      assert s[j] == CommentedHeader[j];
    }
    CommentSkip(s, 3, 0, 13);
  }

  /** The comment line is skipped: the four tokens are "P5", "3", "2" and
      "255", and the pixels start at byte 21. */
  lemma CommentedHeaderTokens(s: seq<byte>, pixels: seq<byte>)
    requires s == CommentedHeader + pixels
    ensures Tokens(s, 0, 4) == Some(([Magic, FormatInt(3), FormatInt(2), FormatInt(255)], 21))
  {
    CommentedPrefix(s, pixels);
    assert FormatInt(3) == s[13..14];
    assert FormatInt(2) == s[15..16];
    assert FormatInt(255) == s[17..20];
    NumberFits(3);
    NumberFits(2);
    NumberFits(255);
    TokenPlain(s, 13, FormatInt(3));
    TokenPlain(s, 15, FormatInt(2));
    TokenPlain(s, 17, FormatInt(255));
    FourTokens(s, Magic, 13, FormatInt(3), 15, FormatInt(2), 17, FormatInt(255), 21);
  }

  /** The commented header describes a 3 by 2 image of 6 bytes with maximum
      value 255, and leaves the stream on byte 21. */
  lemma CommentedHeaderAccepted(pixels: seq<byte>, info0: Info)
    ensures var r := ReadHeader(CommentedHeader + pixels, 0, info0);
      && r.status == Ok
      && r.info.width == 3 && r.info.height == 2 && r.info.maxValue == 255
      && r.info.dataSize == 6
      && r.next == 21
  {
    var s := CommentedHeader + pixels;
    CommentedHeaderTokens(s, pixels);
    NumberReadsBack(3);
    NumberReadsBack(2);
    NumberReadsBack(255);
    CStringNoNul(Magic);
    HeaderFromFields(s, 0, info0, Magic, FormatInt(3), FormatInt(2), FormatInt(255), 21, 3, 2, 255);
  }

  /** Loading the commented file: with six pixel bytes and room for them the
      load succeeds and the buffer starts with those bytes; with room for
      fewer than six it fails and the buffer is untouched; with fewer than
      six pixel bytes in the file it fails after copying the ones there. */
  lemma CommentedFileLoads(pixels: seq<byte>, info0: Info, capacity: nat,
                           status: Status, before: seq<byte>, after: seq<byte>)
    requires capacity <= |before|
    requires PayloadLoaded(CommentedHeader + pixels, 0, info0, capacity, status, before, after)
    ensures capacity < 6 ==> status == Fail && after == before
    ensures 6 <= capacity && |pixels| >= 6 ==> status == Ok && after[..6] == pixels[..6] && after[6..] == before[6..]
    ensures 6 <= capacity && |pixels| < 6 ==>
      status == Fail && after[..|pixels|] == pixels && after[|pixels|..] == before[|pixels|..]
  {
    var file := CommentedHeader + pixels;
    CommentedHeaderAccepted(pixels, info0);
    assert file[21..] == pixels;
  }

  /** A header whose magic token, three numbers and delimiters are laid out
      as "%s\n%s %s\n%s\n": its four tokens are those strings. */
  lemma PlainHeaderTokens(s: seq<byte>, t0: seq<byte>, t1: seq<byte>, t2: seq<byte>, t3: seq<byte>, rest: seq<byte>, e: nat)
    requires |t0| == 2 && forall i :: 0 <= i < |t0| ==> IsTokenByte(t0[i])
    requires |t1| < MaxTokenSize && forall i :: 0 <= i < |t1| ==> IsTokenByte(t1[i])
    requires |t2| < MaxTokenSize && forall i :: 0 <= i < |t2| ==> IsTokenByte(t2[i])
    requires |t3| < MaxTokenSize && forall i :: 0 <= i < |t3| ==> IsTokenByte(t3[i])
    requires s == t0 + [Newline] + t1 + [Space] + t2 + [Newline] + t3 + [Newline] + rest
    requires e == |t1| + |t2| + |t3| + 6
    ensures Tokens(s, 0, 4) == Some(([t0, t1, t2, t3], e))
  {
    NumberTokens(t0 + [Newline], t1, t2, t3, rest);
    assert s[0..2] == t0 && s[2] == Newline;
    TokenPlain(s, 0, t0);
    var a := 3 + |t1| + 1;
    var b := a + |t2| + 1;
    FourTokens(s, t0, 3, t1, a, t2, b, t3, b + |t3| + 1);
  }

  /** "P2\n3 2\n255\n", the magic string of an ASCII PGM file, is refused. */
  lemma AsciiMagicRejected(s: seq<byte>, rest: seq<byte>, info0: Info)
    requires s == [80, 50] + [Newline] + FormatInt(3) + [Space] + FormatInt(2) + [Newline] + FormatInt(255) + [Newline] + rest
    ensures ReadHeader(s, 0, info0).status == Fail
  {
    NumberFits(3);
    NumberFits(2);
    NumberFits(255);
    PlainHeaderTokens(s, [80, 50], FormatInt(3), FormatInt(2), FormatInt(255), rest,
                      |FormatInt(3)| + |FormatInt(2)| + |FormatInt(255)| + 6);
    CStringNoNul([80, 50]);
    HeaderAcceptedIff(s, 0, info0);
  }

  /** The tokens of a header "P5\n%d %d\n%d\n" are the magic string and the
      three decimal texts, and each of those reads back as its number. */
  lemma PlainHeaderValues(s: seq<byte>, rest: seq<byte>, w: nat, h: nat, m: nat, e: nat)
    requires w < 0x8000_0000 && h < 0x8000_0000 && m < 0x8000_0000
    requires s == Magic + [Newline] + FormatInt(w) + [Space] + FormatInt(h) + [Newline] + FormatInt(m) + [Newline] + rest
    requires e == |FormatInt(w)| + |FormatInt(h)| + |FormatInt(m)| + 6
    ensures Tokens(s, 0, 4) == Some(([Magic, FormatInt(w), FormatInt(h), FormatInt(m)], e))
    ensures CString(Magic) == Magic
    ensures ScanInt(CString(FormatInt(w))) == Some(w as int)
    ensures ScanInt(CString(FormatInt(h))) == Some(h as int)
    ensures ScanInt(CString(FormatInt(m))) == Some(m as int)
  {
    NumberFits(w);
    NumberFits(h);
    NumberFits(m);
    PlainHeaderTokens(s, Magic, FormatInt(w), FormatInt(h), FormatInt(m), rest, e);
    NumberReadsBack(w);
    NumberReadsBack(h);
    NumberReadsBack(m);
    CStringNoNul(Magic);
  }

  /** A header "P5\n%d %d\n%d\n" with three non-negative numbers that `%d`
      writes within the token buffer is accepted exactly when the width and
      height are at least 1 and the maximum value lies in 1..255 ("P5\n0 2\n255\n"
      and "P5\n3 2\n256\n" are refused). When accepted, the data size is
      width times height whatever the maximum value: one byte per pixel
      even for "P5\n3 2\n100\n". */
  lemma PlainHeaderRead(s: seq<byte>, rest: seq<byte>, w: nat, h: nat, m: nat, info0: Info)
    requires w < 0x8000_0000 && h < 0x8000_0000 && m < 0x8000_0000
    requires s == Magic + [Newline] + FormatInt(w) + [Space] + FormatInt(h) + [Newline] + FormatInt(m) + [Newline] + rest
    ensures var r := ReadHeader(s, 0, info0);
      && (r.status == Ok <==> w >= 1 && h >= 1 && 1 <= m <= 255)
      && (r.status == Ok ==>
            r.info.width == w && r.info.height == h && r.info.maxValue == m && r.info.dataSize == w * h)
  {
    var e := |FormatInt(w)| + |FormatInt(h)| + |FormatInt(m)| + 6;
    PlainHeaderValues(s, rest, w, h, m, e);
    HeaderFieldsIff(s, 0, info0, Magic, FormatInt(w), FormatInt(h), FormatInt(m), e, w, h, m);
  }

  /** White space is not skipped before a token: a second white-space byte
      right after "P5" (a blank line, or the "\r\n" of a CRLF file) is read
      as an empty width token, which `%d` refuses, so the header fails. */
  lemma DoubleDelimiterRejected(s: seq<byte>, info0: Info)
    requires |s| >= 4 && s[0..2] == Magic && IsSpace(s[2]) && IsSpace(s[3])
    ensures ReadHeader(s, 0, info0).status == Fail
  {
    TokenPlain(s, 0, Magic);
    TokenPlain(s, 3, []);
    CStringNoNul(Magic);
  }

  /** "P5\n3#c\n2 4\n255\n": a `#` glued to the end of the width "3". */
  const GluedHeader: seq<byte> := [80, 53, 10, 51, 35, 99, 10, 50, 32, 52, 10, 50, 53, 53, 10]

  /** A comment glued to a token throws the token away: the "3" before the
      `#` is discarded with the comment, and the read goes on with "2". */
  lemma GluedPrefix(s: seq<byte>, rest: seq<byte>)
    requires s == GluedHeader + rest
    ensures NextToken(s, 0) == TokOk(Magic, 3) && NextToken(s, 3) == NextToken(s, 7)
  {
    assert s[0..2] == Magic;
    TokenPlain(s, 0, Magic);
    CommentSkip(s, 3, 1, 7);
  }

  /** The tokens of "P5\n3#c\n2 4\n255\n" are "P5", "2", "4" and "255". */
  lemma GluedHeaderTokens(s: seq<byte>, rest: seq<byte>)
    requires s == GluedHeader + rest
    ensures Tokens(s, 0, 4) == Some(([Magic, FormatInt(2), FormatInt(4), FormatInt(255)], 15))
  {
    GluedPrefix(s, rest);
    assert FormatInt(2) == s[7..8];
    assert FormatInt(4) == s[9..10];
    assert FormatInt(255) == s[11..14];
    NumberFits(2);
    NumberFits(4);
    NumberFits(255);
    TokenPlain(s, 7, FormatInt(2));
    TokenPlain(s, 9, FormatInt(4));
    TokenPlain(s, 11, FormatInt(255));
    FourTokens(s, Magic, 7, FormatInt(2), 9, FormatInt(4), 11, FormatInt(255), 15);
  }

  /** So "P5\n3#c\n2 4\n255\n" is read as a 2 by 4 image, not as the
      3 by 2 image whose width carries the comment. */
  lemma GluedCommentDropsToken(rest: seq<byte>, info0: Info)
    ensures var r := ReadHeader(GluedHeader + rest, 0, info0);
      && r.status == Ok
      && r.info.width == 2 && r.info.height == 4 && r.info.maxValue == 255
      && r.info.dataSize == 8
      && r.next == 15
  {
    var s := GluedHeader + rest;
    GluedHeaderTokens(s, rest);
    NumberReadsBack(2);
    NumberReadsBack(4);
    NumberReadsBack(255);
    CStringNoNul(Magic);
    HeaderFromFields(s, 0, info0, Magic, FormatInt(2), FormatInt(4), FormatInt(255), 15, 2, 4, 255);
  }

  /** "P5\n3#c\n 2\n255\n": the same glued comment, followed by a line that
      starts with a space. The width "3" is thrown away with the comment,
      the space then ends an empty token, which `%d` refuses, and the header
      fails, although the same header without the comment is accepted. */
  lemma GluedCommentRejected(s: seq<byte>, rest: seq<byte>, info0: Info)
    requires s == [80, 53, 10, 51, 35, 99, 10, 32, 50, 10, 50, 53, 53, 10] + rest
    ensures ReadHeader(s, 0, info0).status == Fail
  {
    assert s[0..2] == Magic;
    TokenPlain(s, 0, Magic);
    CommentSkip(s, 3, 1, 7);
    TokenPlain(s, 7, []);
    CStringNoNul(Magic);
  }

  /** A saved file cut off inside its banner comment, "P5\n# Created by"
      for instance: the comment never closes, so the read of the width
      fails and the header fails with the record as it was. */
  lemma TruncatedBannerRejected(n: nat, info0: Info)
    requires 4 <= n < |Banner|
    ensures var s := Banner[..n];
      && NextToken(s, 3).TokFail?
      && ReadHeader(s, 0, info0).status == Fail
      && ReadHeader(s, 0, info0).info == info0
  {
    var s := Banner[..n];
    assert s[0] == 80 && s[1] == 53 && s[2] == Newline;
    assert s[0..2] == Magic;
    TokenPlain(s, 0, Magic);
    forall j | 3 < j < n
      ensures s[j] != Newline
    {
      assert s[j] == Banner[j];
    }
    UnclosedCommentFails(s, 3, 0);
  }
}
