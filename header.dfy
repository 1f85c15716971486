/** The header parser of tinypgm, `load_info_from_file`: four tokens in
    order (the magic string, the width, the height and the maximum value),
    each number read with `sscanf("%d")`, then a range check of the three
    numbers. */
module Header {
  import opened LibC
  import opened Types
  import opened Tokenizer

  /** The magic string of a binary PGM file, "P5". */
  const Magic: seq<byte> := [80, 53]

  /** What reading a header did: its status, the contents of the caller's
      `tpgm_info_t` afterwards and the stream position reached. */
  datatype Parse = Parse(status: Status, info: Info, next: nat)

  /** A number read as one token followed by `sscanf(token, "%d", &x)`. */
  datatype Field = Field(value: Option<int>, next: nat)

  function ReadInt(s: seq<byte>, p: nat): (r: Field)
    requires p <= |s|
    ensures p <= r.next <= |s|
  {
    match NextToken(s, p)
    case TokFail(at) => Field(None, at)
    case TokOk(t, q) => Field(ScanInt(CString(t)), q)
  }

  /** The header read from position `p` into a record that held `info0`.
      Every field is stored as soon as it is read, before anything is
      checked, so a failed read can leave some fields written. */
  function ReadHeader(s: seq<byte>, p: nat, info0: Info): (r: Parse)
    requires p <= |s|
    ensures p <= r.next <= |s|
    ensures r.status == Ok ==>
      && 1 <= r.info.width && 1 <= r.info.height
      && 1 <= r.info.maxValue <= 255
      && r.info.dataSize == r.info.width * r.info.height
  {
    var m := NextToken(s, p);
    if m.TokFail? || CString(m.token) != Magic then Parse(Fail, info0, m.next)
    else
      var w := ReadInt(s, m.next);
      if w.value.None? then Parse(Fail, info0, w.next)
      else
        var info1 := info0.(width := w.value.value);
        var h := ReadInt(s, w.next);
        if h.value.None? then Parse(Fail, info1, h.next)
        else
          var info2 := info1.(height := h.value.value);
          var mv := ReadInt(s, h.next);
          if mv.value.None? then Parse(Fail, info2, mv.next)
          else
            var info3 := info2.(maxValue := mv.value.value);
            if info3.width < 1 || info3.height < 1 || info3.maxValue < 1 || info3.maxValue > 255 then
              Parse(Fail, info3, mv.next)
            else
              AreaPositive(info3.width, info3.height);
              Parse(Ok, info3.(dataSize := info3.width * info3.height), mv.next)
  }

  /** `load_info_from_file(fp, info)`. */
  method LoadInfoFromFile(fp: Stream, info: InfoRef) returns (status: Status)
    requires fp.Valid()
    modifies fp, info
    ensures fp.Valid()
    ensures var r := ReadHeader(fp.bytes, old(fp.pos), old(info.info));
      status == r.status && info.info == r.info && fp.pos == r.next
  {
    var token := new byte[MaxTokenSize];

    // Only the binary greyscale magic is accepted.
    status := LoadNextAsciiToken(fp, token);
    if status == Fail {
      return;
    }
    TokenInBuffer(fp.bytes, old(fp.pos), token[..]);
    if CString(token[..]) != Magic {
      return Fail;
    }

    // Each number is stored as soon as it is read.
    var v := LoadNumber(fp, token);
    if v.None? {
      return Fail;
    }
    info.info := info.info.(width := v.value);

    v := LoadNumber(fp, token);
    if v.None? {
      return Fail;
    }
    info.info := info.info.(height := v.value);

    v := LoadNumber(fp, token);
    if v.None? {
      return Fail;
    }
    info.info := info.info.(maxValue := v.value);

    // Range checks come only after all three numbers are stored.
    if info.info.width < 1 || info.info.height < 1 || info.info.maxValue < 1 || info.info.maxValue > 255 {
      return Fail;
    }

    // One byte per pixel.
    AreaPositive(info.info.width, info.info.height);
    info.info := info.info.(dataSize := info.info.width * info.info.height);
    return Ok;
  }

  /** One numeric header field as `load_info_from_file` reads it: the next
      token, then `sscanf(token, "%d", &x)`; a failure of either is `None`. */
  method LoadNumber(fp: Stream, token: array<byte>) returns (v: Option<int>)
    requires fp.Valid() && token.Length == MaxTokenSize
    modifies fp, token
    ensures fp.Valid()
    ensures var f := ReadInt(fp.bytes, old(fp.pos)); v == f.value && fp.pos == f.next
  {
    ghost var p := fp.pos;
    var status := LoadNextAsciiToken(fp, token);
    if status == Fail {
      return None;
    }
    TokenInBuffer(fp.bytes, p, token[..]);
    v := ScanInt(CString(token[..]));
  }

  lemma AreaPositive(width: int, height: int)
    requires width >= 1 && height >= 1
    ensures width * height >= width
  {
  }

  /** The C string in the token buffer after a successful read is the C
      string of the token the read returned. */
  lemma TokenInBuffer(s: seq<byte>, p: nat, buffer: seq<byte>)
    requires p <= |s|
    requires var r := NextToken(s, p);
      r.TokOk? && |r.token| < |buffer| && buffer[..|r.token|] == r.token && buffer[|r.token|] == Nul
    ensures CString(buffer) == CString(NextToken(s, p).token)
  {
    CStringUpTo(buffer, |NextToken(s, p).token|);
  }

  // ---------------------------------------------------------------------------
  // When a header is accepted

  /** Reference reading: the first `n` tokens from `p`, with no checking
      between them, and the position after the last one. */
  function Tokens(s: seq<byte>, p: nat, n: nat): (r: Option<(seq<seq<byte>>, nat)>)
    requires p <= |s|
    ensures r.Some? ==> |r.value.0| == n && p <= r.value.1 <= |s|
    decreases n
  {
    if n == 0 then Some(([], p))
    else match NextToken(s, p)
      case TokFail(_) => None
      case TokOk(t, q) =>
        match Tokens(s, q, n - 1)
        case None => None
        case Some(rest) => Some(([t] + rest.0, rest.1))
  }

  /** The four header tokens are acceptable: the magic string is exactly
      "P5" (as a C string), the three numbers read with `%d` and lie in
      range. */
  predicate WellFormed(ts: seq<seq<byte>>)
    requires |ts| == 4
  {
    var w, h, m := ScanInt(CString(ts[1])), ScanInt(CString(ts[2])), ScanInt(CString(ts[3]));
    && CString(ts[0]) == Magic
    && w.Some? && h.Some? && m.Some?
    && w.value >= 1 && h.value >= 1 && 1 <= m.value <= 255
  }

  /** The image information four acceptable tokens describe. */
  function Described(ts: seq<seq<byte>>): (info: Info)
    requires |ts| == 4 && WellFormed(ts)
  {
    var w, h := ScanInt(CString(ts[1])).value, ScanInt(CString(ts[2])).value;
    AreaPositive(w, h);
    Info(w, h, ScanInt(CString(ts[3])).value, w * h)
  }

  /** A header is accepted exactly when its first four tokens can be read
      and are acceptable. Then the payload starts right after the fourth
      token's delimiter and the information is the one they describe,
      whatever the record held before: `dataSize` is `width * height`
      whatever the maximum value. */
  lemma HeaderAcceptedIff(s: seq<byte>, p: nat, info0: Info)
    requires p <= |s|
    ensures var r, ts := ReadHeader(s, p, info0), Tokens(s, p, 4);
      && (r.status == Ok <==> ts.Some? && WellFormed(ts.value.0))
      && (r.status == Ok ==> r.info == Described(ts.value.0) && r.next == ts.value.1)
  {
    var r := ReadHeader(s, p, info0);
    var m := NextToken(s, p);
    if m.TokOk? {
      var w := NextToken(s, m.next);
      if w.TokOk? {
        var h := NextToken(s, w.next);
        if h.TokOk? {
          var mv := NextToken(s, h.next);
          if mv.TokOk? {
            assert Tokens(s, mv.next, 0) == Some(([], mv.next));
            assert [mv.token] + [] == [mv.token];
            assert Tokens(s, h.next, 1) == Some(([mv.token], mv.next));
            assert [h.token] + [mv.token] == [h.token, mv.token];
            assert Tokens(s, w.next, 2) == Some(([h.token, mv.token], mv.next));
            assert [w.token] + [h.token, mv.token] == [w.token, h.token, mv.token];
            assert Tokens(s, m.next, 3) == Some(([w.token, h.token, mv.token], mv.next));
            assert [m.token] + [w.token, h.token, mv.token] == [m.token, w.token, h.token, mv.token];
            assert Tokens(s, p, 4) == Some(([m.token, w.token, h.token, mv.token], mv.next));
          } else {
            assert Tokens(s, h.next, 1).None?;
            assert Tokens(s, w.next, 2).None?;
            assert Tokens(s, m.next, 3).None?;
          }
        } else {
          assert Tokens(s, w.next, 2).None?;
          assert Tokens(s, m.next, 3).None?;
        }
      } else {
        assert Tokens(s, m.next, 3).None?;
      }
    }
  }

  /** Four tokens whose values are known are acceptable when those values
      are in range, and then describe exactly those values. */
  lemma WellFormedFields(t0: seq<byte>, t1: seq<byte>, t2: seq<byte>, t3: seq<byte>, w: int, h: int, m: int)
    requires CString(t0) == Magic
    requires ScanInt(CString(t1)) == Some(w) && ScanInt(CString(t2)) == Some(h) && ScanInt(CString(t3)) == Some(m)
    requires w >= 1 && h >= 1 && 1 <= m <= 255
    ensures var ts := [t0, t1, t2, t3];
      && WellFormed(ts)
      && Described(ts).width == w && Described(ts).height == h && Described(ts).maxValue == m
      && Described(ts).dataSize == w * h
  {
  }

  /** `HeaderAcceptedIff` for a header whose four tokens are known. */
  lemma HeaderFromTokens(s: seq<byte>, p: nat, info0: Info, ts: seq<seq<byte>>, e: nat)
    requires p <= |s| && |ts| == 4
    requires Tokens(s, p, 4) == Some((ts, e))
    requires WellFormed(ts)
    ensures ReadHeader(s, p, info0) == Parse(Ok, Described(ts), e)
  {
    HeaderAcceptedIff(s, p, info0);
  }

  /** `HeaderAcceptedIff` for a header whose four tokens, and the values
      they read as, are known: when those values are in range the header is
      accepted with exactly those values. */
  lemma HeaderFromFields(s: seq<byte>, p: nat, info0: Info, t0: seq<byte>, t1: seq<byte>, t2: seq<byte>, t3: seq<byte>,
                         e: nat, w: int, h: int, m: int)
    requires p <= |s| && Tokens(s, p, 4) == Some(([t0, t1, t2, t3], e))
    requires CString(t0) == Magic
    requires ScanInt(CString(t1)) == Some(w) && ScanInt(CString(t2)) == Some(h) && ScanInt(CString(t3)) == Some(m)
    requires w >= 1 && h >= 1 && 1 <= m <= 255
    ensures var r := ReadHeader(s, p, info0);
      && r.status == Ok
      && r.info.width == w && r.info.height == h && r.info.maxValue == m
      && r.info.dataSize == w * h
      && r.next == e
  {
    WellFormedFields(t0, t1, t2, t3, w, h, m);
    HeaderFromTokens(s, p, info0, [t0, t1, t2, t3], e);
  }

  /** The other half of `HeaderFromFields`: four tokens that read as values
      out of range (a width or height below 1, a maximum value outside
      1..255) make the header fail. */
  lemma HeaderRejectsFields(s: seq<byte>, p: nat, info0: Info, t0: seq<byte>, t1: seq<byte>, t2: seq<byte>, t3: seq<byte>,
                            e: nat, w: int, h: int, m: int)
    requires p <= |s| && Tokens(s, p, 4) == Some(([t0, t1, t2, t3], e))
    requires ScanInt(CString(t1)) == Some(w) && ScanInt(CString(t2)) == Some(h) && ScanInt(CString(t3)) == Some(m)
    requires !(w >= 1 && h >= 1 && 1 <= m <= 255)
    ensures ReadHeader(s, p, info0).status == Fail
  {
    HeaderAcceptedIff(s, p, info0);
  }

  /** `HeaderFromFields` and `HeaderRejectsFields` together: once the four
      tokens and their values are known, the header is accepted exactly
      when the values are in range, and then holds exactly those values. */
  lemma HeaderFieldsIff(s: seq<byte>, p: nat, info0: Info, t0: seq<byte>, t1: seq<byte>, t2: seq<byte>, t3: seq<byte>,
                        e: nat, w: int, h: int, m: int)
    requires p <= |s| && Tokens(s, p, 4) == Some(([t0, t1, t2, t3], e))
    requires CString(t0) == Magic
    requires ScanInt(CString(t1)) == Some(w) && ScanInt(CString(t2)) == Some(h) && ScanInt(CString(t3)) == Some(m)
    ensures var r := ReadHeader(s, p, info0);
      && (r.status == Ok <==> w >= 1 && h >= 1 && 1 <= m <= 255)
      && (r.status == Ok ==>
            r.info.width == w && r.info.height == h && r.info.maxValue == m && r.info.dataSize == w * h)
  {
    if w >= 1 && h >= 1 && 1 <= m <= 255 {
      HeaderFromFields(s, p, info0, t0, t1, t2, t3, e, w, h, m);
    } else {
      HeaderRejectsFields(s, p, info0, t0, t1, t2, t3, e, w, h, m);
    }
  }

  /** Reading one or more tokens consumes at least one byte and stops just
      after a white-space byte. With `HeaderAcceptedIff` at `n == 4`: an
      accepted header leaves the stream on the first payload byte, just past
      the single white-space byte that ended the maximum value. */
  lemma {:induction false} TokensEndAtDelimiter(s: seq<byte>, p: nat, n: nat)
    requires p <= |s| && n >= 1 && Tokens(s, p, n).Some?
    ensures var e := Tokens(s, p, n).value.1; p < e && IsSpace(s[e - 1])
    decreases n
  {
    var t := NextToken(s, p);
    if n == 1 {
      assert Tokens(s, t.next, 0) == Some(([], t.next));
      TokenShape(s, p);
    } else {
      TokensEndAtDelimiter(s, t.next, n - 1);
    }
  }
}
